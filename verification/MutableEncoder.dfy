/** Serialization of generated mutable messages: fields from the highest id down, untouched ones
    copied from the source, the others encoded with the in-place container encoders. */
module MutableEncoder {
  import opened Bits
  import opened Wrappers
  import opened Packing
  import opened Strings
  import opened Cells
  import opened Buffers
  import opened PerfectHash
  import opened Compaction
  import C = Containers
  import opened MapContainers
  import opened Views
  import opened Messages
  import opened MessageEncoder
  import opened Extents
  import opened ContainerReading
  import opened Records
  import opened Schemas
  import opened TreeReading
  import opened Delivery
  import opened MapKeys
  import opened WireFormat
  import opened Overflows
  import opened Sizing
  import opened Lookup
  import opened Conveying
  import opened Counting
  import opened Cores
  import opened AccessSets
  import opened MutableValues
  import opened Overruns

  // ----- the source

  /** The record conveyed at the start of source words. */
  lemma SourceParts(schema: Schema, hash: Hash, name: Name, words: seq<u32>)
    returns (v: Value, core: seq<u32>, rest: seq<u32>)
    requires name in schema && schema[name].Record? && SourceOk(schema, hash, name, words)
    ensures Conveys(schema, hash, Message(name), v, core) && v.VRecord? && core != [] && NotAPointer(core)
    ensures words == core + rest
  {
    v :| Framed(schema, hash, Message(name), v, words);
    core := CoreIn(schema, hash, Message(name), v, words);
    ConveyedShape(schema, hash, Message(name), v, core);
    ConveysStart(schema, hash, Message(name), v, core);
    rest := words[|core|..];
  }

  /** The fields of a conveyed record are those shown, whatever follows. */
  lemma SourceField(schema: Schema, hash: Hash, name: Name, v: Value, core: seq<u32>, rest: seq<u32>,
                    id: nat) returns (c: seq<u32>)
    requires name in schema && schema[name].Record? && Conveys(schema, hash, Message(name), v, core)
    requires v.VRecord? && Live(schema[name].slots, id)
    ensures var slots, field := schema[name].slots, FieldIn(core + rest, id);
            && (field.Some? <==> id in v.fields)
            && (id in v.fields ==>
                  && Conveys(schema, hash, slots[id].ty, v.fields[id], c)
                  && StartsWith(field.value, c, IsScalar(slots[id].ty))
                  && ReadSlot(schema, slots, core + rest, id) == Some(v.fields[id]))
  {
    hide FieldIn, ReadField, StartsWith, IsMessage;
    var slots := schema[name].slots;
    var cs := RecordCores(schema, hash, name, v, core);
    assert RecordOver(slots, cs, core + rest);
    c := [];
    if id in v.fields {
      assert id in cs;
      c := cs[id];
      ConveyedReads(schema, hash, slots[id].ty, v.fields[id], c, FieldIn(core + rest, id).value);
    }
  }

  lemma ConveyedReads(schema: Schema, hash: Hash, ty: Type, v: Value, c: seq<u32>, field: FieldView)
    requires Conveys(schema, hash, ty, v, c) && StartsWith(field, c, IsScalar(ty))
    ensures ReadField(schema, ty, field) == Some(v) && DetectSlice(schema, ty, field) == Some(c) && c != []
  {
    hide Conveys, ReadField, DetectSlice, StartsWith, Encodes;
    ConveysReads(schema, hash, ty, v, c);
    ConveysStart(schema, hash, ty, v, c);
    StartsReads(schema, ty, v, c, field);
  }

  lemma ConveyedFieldsLive(schema: Schema, hash: Hash, name: Name, v: Value, core: seq<u32>)
    requires name in schema && schema[name].Record? && Conveys(schema, hash, Message(name), v, core) && v.VRecord?
    ensures forall id :: id in v.fields ==> Live(schema[name].slots, id)
  {
    var slots := schema[name].slots;
    var cs := RecordCores(schema, hash, name, v, core);
    forall id | id in v.fields ensures Live(slots, id) {
      assert id in cs;
      assert cs[id] == cs[id];
    }
  }

  /** The fields of an untouched message are those of its source. */
  lemma CleanFields(schema: Schema, hash: Hash, name: Name, st: State, v: Value, core: seq<u32>, rest: seq<u32>)
    requires ValidState(schema, hash, name, st) && IsClean(st) && v.VRecord?
    requires Conveys(schema, hash, Message(name), v, core) && st.words.value == core + rest
    ensures StateFields(schema, schema[name].slots, st) == v.fields
  {
    hide Conveys, FieldIn, ReadField, StartsWith, ValidState;
    IsRecord(schema, hash, name, st);
    var slots := schema[name].slots;
    forall id: nat | Live(slots, id)
        ensures FieldMeaning(schema, slots, st, id) == if id in v.fields then Some(v.fields[id]) else None {
      var c := SourceField(schema, hash, name, v, core, rest, id);
      NeverAccessed(st, id);
    }
    ConveyedFieldsLive(schema, hash, name, v, core);
    assert StateFields(schema, slots, st) == v.fields;
  }

  /** A message that is left out reads as the empty one. */
  lemma OmittedReads(schema: Schema, hash: Hash, name: Name, st: State)
    requires ValidState(schema, hash, name, st) && IsOneWord(schema, schema[name].slots, st)
    ensures StateFields(schema, schema[name].slots, st) == map[]
  {
    hide FieldIn, ReadField, Conveys, FieldMeaning, SourceOk;
    var slots := schema[name].slots;
    if IsClean(st) {
      var v, core, rest := SourceParts(schema, hash, name, st.words.value);
      CleanFields(schema, hash, name, st, v, core, rest);
      ConveyedFieldsLive(schema, hash, name, v, core);
      forall id | id in v.fields ensures false {
        var c := SourceField(schema, hash, name, v, core, rest, id);
        ConveysStart(schema, hash, slots[id].ty, v.fields[id], c);
        FieldShorter(st.words.value, id);
        StartsSomewhere(FieldIn(st.words.value, id).value, c, IsScalar(slots[id].ty));
      }
    }
  }

  lemma StartsSomewhere(field: FieldView, c: seq<u32>, scalar: bool)
    requires StartsWith(field, c, scalar) && c != []
    ensures field.tail != []
  {
  }

  /** Leaving a default out loses nothing: what is shown is the value. */
  lemma SlotReads(schema: Schema, hash: Hash, ty: Type, mv: MValue)
    requires ValidValue(schema, hash, ty, mv)
    ensures Shown(schema, ty, SlotMeaning(schema, ty, mv)) == MRead(schema, ty, mv)
  {
    hide FieldMeaning, ValidState;
    SlotIs(schema, ty, mv);
    if mv.MMessage? {
      IsRecord(schema, hash, ty.name, mv.state);
      MessageIs(schema, ty.name, mv.state);
      if Omits(schema, ty, mv) { OmittedReads(schema, hash, ty.name, mv.state); }
    } else {
      EmptyReads(schema, hash, ty, mv);
    }
  }

  lemma NeverAccessed(st: State, id: nat)
    requires IsClean(st)
    ensures !Has(st.accessed, id)
  {
    AnyIsSome(st.accessed);
  }

  // ----- single fields

  /** copy_words */
  method CopyWords(words: seq<u32>, buffer: Buffer, fold: bool) returns (unit: Unit)
    requires buffer.Valid()
    modifies buffer.Repr()
    ensures buffer.Valid() && fresh(buffer.Repr() - old(buffer.Repr()))
    ensures if fold && |words| < 4 then unit == InlineUnit(words) && buffer.View() == old(buffer.View())
            else unit == SegmentUnit(|old(buffer.View())|, |old(buffer.View())| + |words|)
                 && buffer.View() == words + old(buffer.View())
  {
    hide Buffer.View;
    if fold && |words| < 4 {
      return InlineUnit(words);
    }
    var last := buffer.Len();
    buffer.PutWords(words);
    unit := SegmentUnit(last, buffer.Len());
  }

  /** What becomes of field `id`: nothing, or words that start with words conveying the field,
      folded when small. */
  ghost predicate FieldDone(schema: Schema, hash: Hash, name: Name, slots: seq<Slot>, st: State, id: nat, unit: Unit,
                            e: seq<u32>, before: seq<u32>, after: seq<u32>)
    requires Live(slots, id)
  {
    && (if |e| <= 3 then unit == InlineUnit(e) && after == before
        else unit == SegmentUnit(|before|, |before| + |e|) && after == e + before)
    && FieldOk(schema, hash, name, slots, st, id, e)
  }

  /** What is promised of the words of field `id`. */
  ghost predicate FieldOk(schema: Schema, hash: Hash, name: Name, slots: seq<Slot>, st: State, id: nat, e: seq<u32>)
    requires Live(slots, id)
  {
    && (e != [] ==> |e| + 1 <= FieldRoom(schema, slots, st, id))
    && (FieldSound(schema, slots, st, id, e) ==> FieldKept(schema, hash, name, slots, st, id, e))
  }

  /** The words start with words that convey the value, convey it themselves when `tight`, and are an
      encoding of it when `canonical`. */
  ghost predicate Writes(schema: Schema, hash: Hash, ty: Type, v: Value, tight: bool, canonical: bool,
                         words: seq<u32>) {
    && Framed(schema, hash, ty, v, words)
    && (tight ==> Conveys(schema, hash, ty, v, words))
    && (canonical ==> EncodingOf(schema, hash, ty, v, words))
  }

  /** Encodings meet all three. */
  lemma EncodingWrites(schema: Schema, hash: Hash, ty: Type, v: Value, words: seq<u32>)
    requires EncodingOf(schema, hash, ty, v, words)
    ensures Writes(schema, hash, ty, v, true, true, words)
  {
    hide EncodingOf, Conveys, Framed;
    FormatConveys(schema, hash, ty, v, words);
    FramesWhole(schema, hash, ty, v, words);
  }

  ghost predicate FieldKept(schema: Schema, hash: Hash, name: Name, slots: seq<Slot>, st: State, id: nat, e: seq<u32>)
    requires Live(slots, id)
  {
    var meaning := FieldMeaning(schema, slots, st, id);
    if e == [] then meaning.None?
    else
      && meaning.Some?
      && Writes(schema, hash, slots[id].ty, meaning.value, TightField(schema, slots, st, id),
                CanonicalField(schema, hash, name, slots, st, id), e)
  }

  /** A field never accessed is copied from the source, slice by slice. */
  method CopyField(schema: Schema, hash: Hash, name: Name, st: State, id: nat, buffer: Buffer)
    returns (unit: Unit, ghost e: seq<u32>)
    requires buffer.Valid() && ValidState(schema, hash, name, st) && Live(schema[name].slots, id)
        && !Has(st.accessed, id)
    modifies buffer.Repr()
    ensures buffer.Valid() && fresh(buffer.Repr() - old(buffer.Repr()))
    ensures FieldDone(schema, hash, name, schema[name].slots, st, id, unit, e, old(buffer.View()), buffer.View())
  {
    hide Buffer.View, DetectSlice, FieldIn, Writes;
    var slots := schema[name].slots;
    e := [];
    if st.words.None? || FieldIn(st.words.value, id).None? {
      return EMPTY, e;
    }
    var slice := DetectSlice(schema, slots[id].ty, FieldIn(st.words.value, id).value);
    CopiedReads(schema, hash, name, st, id);
    e := slice.value;
    unit := CopyWords(slice.value, buffer, true);
  }

  lemma CopiedReads(schema: Schema, hash: Hash, name: Name, st: State, id: nat)
    requires ValidState(schema, hash, name, st) && Live(schema[name].slots, id) && !Has(st.accessed, id)
    requires st.words.Some? && FieldIn(st.words.value, id).Some?
    ensures var slots, slice := schema[name].slots, DetectSlice(schema, schema[name].slots[id].ty,
        FieldIn(st.words.value, id).value);
            && slice.Some? && slice.value != [] && FieldKept(schema, hash, name, slots, st, id, slice.value)
            && FieldMeaning(schema, slots, st, id).Some?
            && Conveys(schema, hash, slots[id].ty, FieldMeaning(schema, slots, st, id).value, slice.value)
  {
    hide Conveys, FieldIn, ReadField, StartsWith, DetectSlice, SourceOk, EncodingOf, InFormat;
    var slots := schema[name].slots;
    var v, core, rest := SourceParts(schema, hash, name, st.words.value);
    var c := SourceField(schema, hash, name, v, core, rest, id);
    ConveyedReads(schema, hash, slots[id].ty, v.fields[id], c, FieldIn(st.words.value, id).value);
    FramesWhole(schema, hash, slots[id].ty, v.fields[id], c);
    if InFormat(schema, hash, Message(name), st.words.value) { FormatSlice(schema, hash, name, st.words.value, id); }
  }

  /** Of a source in the wire format, the detected slice of a field is the encoding of its value. */
  lemma FormatSlice(schema: Schema, hash: Hash, name: Name, words: seq<u32>, id: nat)
    requires name in schema && schema[name].Record? && InFormat(schema, hash, Message(name), words)
    requires Live(schema[name].slots, id) && FieldIn(words, id).Some?
    ensures var ty, slice := schema[name].slots[id].ty, DetectSlice(schema, schema[name].slots[id].ty,
        FieldIn(words, id).value);
            && ReadSlot(schema, schema[name].slots, words, id).Some? && slice.Some?
            && EncodingOf(schema, hash, ty, ReadSlot(schema, schema[name].slots, words, id).value, slice.value)
  {
    hide RecordWords, CountsFit, FieldIn, ReadField, Trim, DataSize, StartsWith, Encodes, EncodingOf, DetectSlice,
         NotAPointer, Reach;
    var slots := schema[name].slots;
    var v, es, last, rest := FormatParts(schema, hash, name, words);
    RecordCoreReads(es, es, last, rest, id);
    assert CoresOf(es, es);
    var field := FieldIn(words, id).value;
    assert es[id] != [] && id in v.fields;
    FormatReads(schema, hash, slots[id].ty, v.fields[id], es[id]);
    FieldStarts(schema, hash, slots[id].ty, v.fields[id], es, last, words, id, field);
    StartsReads(schema, slots[id].ty, v.fields[id], es[id], field);
  }

  lemma FormatParts(schema: Schema, hash: Hash, name: Name, words: seq<u32>)
    returns (v: Value, es: seq<seq<u32>>, last: nat, rest: seq<u32>)
    requires name in schema && schema[name].Record? && InFormat(schema, hash, Message(name), words)
    ensures v.VRecord? && FieldsOf(schema, hash, schema[name].slots, v, es) && RecordFits(es) && CountsFit(es, last)
    ensures CoresOf(es, es) && words == RecordCore(es, es, last) + rest
  {
    hide FieldsOf, CountsFit, RecordWords, RecordCore, Trim, DataSize;
    var e;
    v, e :| EncodingOf(schema, hash, Message(name), v, e) && e <= words;
    assert RecordEncoding(schema, hash, schema[name].slots, v, e);
    es, last :| FieldsOf(schema, hash, schema[name].slots, v, es) && RecordFits(es) && CountsFit(es, last)
      && e == RecordWords(es, last);
    rest := words[|e|..];
  }

  lemma FieldStarts(schema: Schema, hash: Hash, ty: Type, v: Value, es: seq<seq<u32>>, last: nat, words: seq<u32>,
                    id: nat, field: FieldView)
    requires id < |es| && Sections(|Trim(es)|) <= 0xff && CoreShown(es, es, last, words, id, field)
    requires Encodes(schema, ty, v, es[id]) && EncodingOf(schema, hash, ty, v, es[id])
    ensures StartsWith(field, es[id], IsScalar(ty))
  {
    hide Trim, RecordWords, StartsWith, Reach, Encodes, Payload, ShowsCore, NotAPointer;
    FormatConveys(schema, hash, ty, v, es[id]);
    ConveysStart(schema, hash, ty, v, es[id]);
    ScalarLength(schema, hash, ty, v, es[id]);
    CoreStarts(field, es[id], es[id], IsScalar(ty));
  }

  lemma ScalarLength(schema: Schema, hash: Hash, ty: Type, v: Value, e: seq<u32>)
    requires EncodingOf(schema, hash, ty, v, e)
    ensures IsScalar(ty) ==> 1 <= |e| <= 2
  {
  }

  /** Unless a count overflowed, words delivered for a mutable value start with words that convey it,
      and are exactly those when every message copied is; a message takes one word exactly when it
      counts as default. */
  ghost predicate MEncoded(schema: Schema, hash: Hash, ty: Type, mv: MValue, unit: Unit, words: seq<u32>,
                           before: seq<u32>, after: seq<u32>) {
    && Delivers(unit, words, before, after)
    && |words| <= MWeight(schema, ty, mv)
    && (!Overrun(schema, ty, mv, words) ==> MFaithful(schema, hash, ty, mv, words))
  }

  ghost predicate MFaithful(schema: Schema, hash: Hash, ty: Type, mv: MValue, words: seq<u32>) {
    && Writes(schema, hash, ty, MRead(schema, ty, mv), Tight(schema, ty, mv), Canonical(schema, hash, ty, mv), words)
    && (mv.MMessage? ==> (|words| == 1 <==> Omits(schema, ty, mv)))
  }

  /** An accessed field is encoded from its slot; defaults are left out, small encodings folded. */
  method EncodeAccessed(schema: Schema, hash: Hash, clock: Clock, name: Name, st: State, id: nat, buffer: Buffer)
    returns (unit: Option<Unit>, ghost e: seq<u32>)
    requires buffer.Valid() && ValidState(schema, hash, name, st) && Live(schema[name].slots, id)
        && Has(st.accessed, id)
    modifies buffer.Repr()
    ensures buffer.Valid() && fresh(buffer.Repr() - old(buffer.Repr()))
    ensures unit.Some? ==>
        FieldDone(schema, hash, name, schema[name].slots, st, id, unit.value, e, old(buffer.View()), buffer.View())
    ensures SlotAccepted(schema, hash, clock, schema[name].slots, st, id) ==> unit.Some?
    decreases st, 0
  {
    hide Buffer.View, Writes, MRead, MFaithful, Overrun, Tight, Canonical, MAccepted, MWeight;
    var slots := schema[name].slots;
    e := [];
    if id !in st.slots || IsEmptyField(st.slots[id]) {
      DefaultIsAbsent(schema, hash, name, slots, st, id);
      return Some(EMPTY), e;
    }
    var mv, ty := st.slots[id], slots[id].ty;
    ghost var before := buffer.View();
    ghost var words;
    unit, words := EncodeM(schema, hash, clock, ty, mv, buffer);
    if unit.None? {
      return;
    }
    ghost var front := Delivered(unit.value, words, before, buffer.View());
    if mv.MMessage? && unit.value.Size() == 1 {
      OneWordSound(schema, ty, mv, words);
      OmittedIsAbsent(schema, hash, name, slots, st, id, words);
      if unit.value.IsSegment() {
        buffer.Shrink(unit.value.segment.len);
        assert buffer.View() == before;
      }
      return Some(EMPTY), e;
    }
    var folded := Fold(buffer, unit.value, words, before);
    if !Overrun(schema, ty, mv, words) { KeptReads(schema, hash, name, slots, st, id, words); }
    unit, e := Some(folded), words;
  }

  lemma DefaultIsAbsent(schema: Schema, hash: Hash, name: Name, slots: seq<Slot>, st: State, id: nat)
    requires Live(slots, id) && Has(st.accessed, id) && (id in st.slots ==> IsEmptyField(st.slots[id]))
    ensures FieldKept(schema, hash, name, slots, st, id, [])
  {
    AccessedIs(schema, slots, st, id);
    if id in st.slots { SlotIs(schema, slots[id].ty, st.slots[id]); }
  }

  lemma OmittedIsAbsent(schema: Schema, hash: Hash, name: Name, slots: seq<Slot>, st: State, id: nat, words: seq<u32>)
    requires Live(slots, id) && Has(st.accessed, id) && id in st.slots && !IsEmptyField(st.slots[id])
    requires st.slots[id].MMessage? && |words| == 1 && MFaithful(schema, hash, slots[id].ty, st.slots[id], words)
    ensures FieldKept(schema, hash, name, slots, st, id, [])
  {
    hide Writes;
    AccessedIs(schema, slots, st, id);
    SlotIs(schema, slots[id].ty, st.slots[id]);
  }

  lemma KeptReads(schema: Schema, hash: Hash, name: Name, slots: seq<Slot>, st: State, id: nat, words: seq<u32>)
    requires Live(slots, id) && Has(st.accessed, id) && id in st.slots && !IsEmptyField(st.slots[id])
    requires words != [] && MFaithful(schema, hash, slots[id].ty, st.slots[id], words)
    requires !(st.slots[id].MMessage? && |words| == 1)
    ensures FieldKept(schema, hash, name, slots, st, id, words)
  {
    hide Framed, Conveys, EncodingOf, MRead, SlotMeaning, FieldMeaning, Omits, Tight, Canonical, InFormat;
    AccessedIs(schema, slots, st, id);
    SlotIs(schema, slots[id].ty, st.slots[id]);
  }

  /** serialize_field */
  method SerializeField(schema: Schema, hash: Hash, clock: Clock, name: Name, st: State, id: nat, buffer: Buffer)
    returns (unit: Option<Unit>, ghost e: seq<u32>)
    requires buffer.Valid() && ValidState(schema, hash, name, st) && Live(schema[name].slots, id)
    modifies buffer.Repr()
    ensures buffer.Valid() && fresh(buffer.Repr() - old(buffer.Repr()))
    ensures unit.Some? ==>
        FieldDone(schema, hash, name, schema[name].slots, st, id, unit.value, e, old(buffer.View()), buffer.View())
    ensures SlotAccepted(schema, hash, clock, schema[name].slots, st, id) ==> unit.Some?
    decreases st, 1
  {
    hide Buffer.View, FieldDone, ValidState, Has, SlotAccepted;
    if !Has(st.accessed, id) {
      var copied;
      copied, e := CopyField(schema, hash, name, st, id, buffer);
      return Some(copied), e;
    }
    unit, e := EncodeAccessed(schema, hash, clock, name, st, id, buffer);
  }

  // ----- messages

  ghost predicate FieldsKept(schema: Schema, hash: Hash, name: Name, slots: seq<Slot>, st: State, id: nat,
                             es: seq<seq<u32>>) {
    && id <= |es| <= |slots|
    && forall j {:trigger es[j]} :: id <= j < |es| ==>
        if Live(slots, j) then FieldOk(schema, hash, name, slots, st, j, es[j]) else es[j] == []
  }

  lemma FieldsKeptStep(schema: Schema, hash: Hash, name: Name, slots: seq<Slot>, st: State, id: nat, es: seq<seq<u32>>,
                       e: seq<u32>)
    requires id < |es| && FieldsKept(schema, hash, name, slots, st, id + 1, es)
    requires if Live(slots, id) then FieldOk(schema, hash, name, slots, st, id, e) else e == []
    ensures FieldsKept(schema, hash, name, slots, st, id, es[id := e])
  {
    hide FieldOk;
  }

  /** EncodeToUnit of a generated message: the source itself when nothing was accessed, otherwise the
      live fields from the highest id down. */
  method EncodeState(schema: Schema, hash: Hash, clock: Clock, name: Name, st: State, buffer: Buffer)
    returns (unit: Option<Unit>, ghost words: seq<u32>)
    requires buffer.Valid() && ValidState(schema, hash, name, st)
    modifies buffer.Repr()
    ensures buffer.Valid() && fresh(buffer.Repr() - old(buffer.Repr()))
    ensures IsClean(st) ==> unit.Some? && words == st.words.value
    ensures unit.Some? ==>
        MEncoded(schema, hash, Message(name), MMessage(st), unit.value, words, old(buffer.View()), buffer.View())
    ensures unit.Some? && !IsClean(st) ==> StateLeft(schema, name, st, words)
    ensures MAccepted(schema, hash, clock, Message(name), MMessage(st)) ==> unit.Some?
    decreases st, 2
  {
    hide Buffer.View, MEncoded, StateLeft, FieldsKept, Placing, MessageWords, DataSize, FieldDone, Payload, ValidState,
         RecordWords, MAccepted, FieldOk, Sections, Has, Live;
    words := [];
    if IsClean(st) {
      words := st.words.value;
      CleanEncoded(schema, hash, name, st, buffer.View());
      var copied := CopyWords(st.words.value, buffer, false);
      return Some(copied), words;
    }
    IsRecord(schema, hash, name, st);
    if MAccepted(schema, hash, clock, Message(name), MMessage(st)) { AcceptedState(schema, hash, clock, name, st); }
    var slots := schema[name].slots;
    var count := LiveCount(slots);
    var last := buffer.Len();
    ghost var before := buffer.View();
    var parts := seq(count, _ => EMPTY);
    ghost var es: seq<seq<u32>> := seq(count, _ => []);
    PlacingStart(parts, es, before);
    NoFieldsKept(schema, hash, name, slots, st, es);
    var id: nat := count;
    while id > 0
      invariant buffer.Valid() && fresh(buffer.Repr() - old(buffer.Repr()))
      invariant id <= count == |parts| == |es| && Placing(parts, es, id, before, buffer.View())
      invariant FieldsKept(schema, hash, name, slots, st, id, es)
    {
      id := id - 1;
      EmptyAtId(parts, es, id, before, buffer.View());
      if !Live(slots, id) {
        FieldsKeptStep(schema, hash, name, slots, st, id, es, []);
        continue;
      }
      ghost var view := buffer.View();
      var part;
      ghost var e;
      part, e := SerializeField(schema, hash, clock, name, st, id, buffer);
      if part.None? {
        return None, words;
      }
      DoneParts(schema, hash, name, slots, st, id, part.value, e, view, buffer.View());
      FieldsKeptStep(schema, hash, name, slots, st, id, es, e);
      PlacingStep(parts, es, id, before, view, part.value, e, buffer.View());
      parts, es := parts[id := part.value], es[id := e];
    }
    ghost var view := buffer.View();
    PlacingDone(parts, es, before, view);
    if MAccepted(schema, hash, clock, Message(name), MMessage(st)) {
      StatePasses(schema, hash, clock, name, st, parts, es, before, view);
    }
    unit := SerializeMessageAt(parts, buffer, last);
    if unit.Some? {
      RecordDone(parts, es, before, view, unit.value, buffer.View());
      words := RecordWords(es, last);
      StateEncoded(schema, hash, name, st, es, last, unit.value, before, buffer.View());
      StatePresence(schema, hash, name, st, es, last);
    }
  }

  /** A message written anew has no deprecated field, and, unless a count overflowed, exactly the
      fields of the state. */
  ghost predicate StateLeft(schema: Schema, name: Name, st: State, words: seq<u32>) {
    && name in schema && schema[name].Record?
    && forall suffix: seq<u32>, id: nat {:trigger FieldIn(words + suffix, id)} ::
         FieldLeft(schema, name, st, words, FieldIn(words + suffix, id).Some?, id)
  }

  ghost predicate FieldLeft(schema: Schema, name: Name, st: State, words: seq<u32>, present: bool, id: nat)
    requires name in schema && schema[name].Record?
  {
    var slots := schema[name].slots;
    && (present ==> id < |slots| && slots[id].Field? && !slots[id].deprecated)
    && (!Overrun(schema, Message(name), MMessage(st), words) ==> (present <==> id in StateFields(schema, slots, st)))
  }

  lemma StatePresence(schema: Schema, hash: Hash, name: Name, st: State, es: seq<seq<u32>>, last: nat)
    requires name in schema && schema[name].Record? && !IsClean(st) && Sections(|Trim(es)|) <= 0xff
    requires |es| == LiveCount(schema[name].slots) && FieldsKept(schema, hash, name, schema[name].slots, st, 0, es)
    ensures StateLeft(schema, name, st, RecordWords(es, last))
  {
    hide RecordWords, Trim, FieldIn, FieldsKept, StateFields, Overrun;
    var words := RecordWords(es, last);
    forall suffix: seq<u32>, id: nat
      ensures FieldLeft(schema, name, st, words, FieldIn(words + suffix, id).Some?, id)
    {
      RecordPresence(es, last, suffix, id);
      OnlyLive(schema, hash, name, schema[name].slots, st, es, id);
      if !Overrun(schema, Message(name), MMessage(st), words) {
        FieldsSound(schema, name, st, es, last);
        WordsOfMeaning(schema, hash, name, st, es, id);
      }
    }
  }

  lemma OnlyLive(schema: Schema, hash: Hash, name: Name, slots: seq<Slot>, st: State, es: seq<seq<u32>>, id: nat)
    requires FieldsKept(schema, hash, name, slots, st, 0, es)
    ensures id < |es| && es[id] != [] ==> id < |slots| && slots[id].Field? && !slots[id].deprecated
  {
    hide FieldOk;
    if id < |es| { assert es[id] == es[id]; }
  }

  /** Fields with a meaning have words, and no others. */
  lemma WordsOfMeaning(schema: Schema, hash: Hash, name: Name, st: State, es: seq<seq<u32>>, id: nat)
    requires name in schema && schema[name].Record? && AllSound(schema, schema[name].slots, st, es)
    requires |es| == LiveCount(schema[name].slots) && FieldsKept(schema, hash, name, schema[name].slots, st, 0, es)
    ensures id < |es| && es[id] != [] <==> id in StateFields(schema, schema[name].slots, st)
  {
    hide Writes, FieldMeaning, FieldSound, TightField, CanonicalField;
    var slots := schema[name].slots;
    if id < |es| {
      assert es[id] == es[id];
      if Live(slots, id) { assert FieldKept(schema, hash, name, slots, st, id, es[id]); }
    }
  }

  lemma CleanEncoded(schema: Schema, hash: Hash, name: Name, st: State, before: seq<u32>)
    requires ValidState(schema, hash, name, st) && IsClean(st)
    ensures var words := st.words.value;
            MEncoded(schema, hash, Message(name), MMessage(st), SegmentUnit(|before|, |before| + |words|), words,
                     before, words + before)
  {
    hide MFaithful, MWeight, Overrun, ValidState;
    CleanFaithful(schema, hash, name, st);
    IsRecord(schema, hash, name, st);
    CleanWeight(schema, name, st);
  }

  lemma StateEncoded(schema: Schema, hash: Hash, name: Name, st: State, es: seq<seq<u32>>, last: nat, unit: Unit,
                     before: seq<u32>, after: seq<u32>)
    requires name in schema && schema[name].Record? && !IsClean(st) && RecordFits(es)
    requires |es| == LiveCount(schema[name].slots) && FieldsKept(schema, hash, name, schema[name].slots, st, 0, es)
    requires Delivers(unit, RecordWords(es, last), before, after)
    requires |RecordWords(es, last)| == 1 ==> forall id :: 0 <= id < |es| ==> es[id] == []
    requires (forall id :: 0 <= id < |es| ==> es[id] == []) ==> RecordWords(es, last) == [0]
    ensures MEncoded(schema, hash, Message(name), MMessage(st), unit, RecordWords(es, last), before, after)
  {
    hide MFaithful, MWeight, Overrun, FieldsKept, RecordFits, RecordWords, Delivers;
    StateWithin(schema, hash, name, st, es, last);
    if !Overrun(schema, Message(name), MMessage(st), RecordWords(es, last)) {
      StateKept(schema, hash, name, st, es, last);
    }
  }

  lemma CleanWeight(schema: Schema, name: Name, st: State)
    requires name in schema && schema[name].Record? && IsClean(st)
    ensures MWeight(schema, Message(name), MMessage(st)) == |st.words.value|
  {
  }

  lemma AcceptedState(schema: Schema, hash: Hash, clock: Clock, name: Name, st: State)
    requires name in schema && schema[name].Record? && !IsClean(st)
    requires MAccepted(schema, hash, clock, Message(name), MMessage(st))
    ensures 1 <= LiveCount(schema[name].slots) <= 12 + 25 * 255
    ensures 511 + Total(MFieldWeights(schema, schema[name].slots, st)) < MAX_SIZE
    ensures forall id :: Live(schema[name].slots, id) ==> SlotAccepted(schema, hash, clock, schema[name].slots, st, id)
  {
    hide Has, IndexFails;
    var slots := schema[name].slots;
    forall id: nat | Live(slots, id) ensures SlotAccepted(schema, hash, clock, slots, st, id) {
      TotalCovers(MFieldWeights(schema, slots, st), id);
    }
  }

  lemma StateBounded(schema: Schema, hash: Hash, name: Name, slots: seq<Slot>, st: State, es: seq<seq<u32>>)
    requires |es| == LiveCount(slots) && FieldsKept(schema, hash, name, slots, st, 0, es)
    ensures FieldsWithin(es, MFieldWeights(schema, slots, st))
  {
    hide FieldKept, FieldSound, FieldRoom;
    var bounds := MFieldWeights(schema, slots, st);
    forall id | 0 <= id < |es| && es[id] != [] ensures |es[id]| + 1 <= bounds[id] {
      assert Live(slots, id) && FieldOk(schema, hash, name, slots, st, id, es[id]);
    }
  }

  lemma StatePasses(schema: Schema, hash: Hash, clock: Clock, name: Name, st: State, parts: seq<Unit>,
                    es: seq<seq<u32>>, before: seq<u32>, view: seq<u32>)
    requires name in schema && schema[name].Record? && !IsClean(st)
    requires MAccepted(schema, hash, clock, Message(name), MMessage(st))
    requires |es| == LiveCount(schema[name].slots) && FieldsKept(schema, hash, name, schema[name].slots, st, 0, es)
    requires Placing(parts, es, 0, before, view)
    ensures DataSize(Used(parts)) < MAX_SIZE && Sections(|Used(parts)|) <= 0xff
  {
    hide FieldsKept, MFieldWeights, MAccepted, DataSize, Used, Payload, Units, Sections, FieldsWithin, SlotAccepted;
    AcceptedState(schema, hash, clock, name, st);
    StateBounded(schema, hash, name, schema[name].slots, st, es);
    RecordPasses(parts, es, MFieldWeights(schema, schema[name].slots, st), |before|);
  }

  lemma StateWithin(schema: Schema, hash: Hash, name: Name, st: State, es: seq<seq<u32>>, last: nat)
    requires name in schema && schema[name].Record? && !IsClean(st) && RecordFits(es)
    requires |es| == LiveCount(schema[name].slots) && FieldsKept(schema, hash, name, schema[name].slots, st, 0, es)
    ensures Sections(|Trim(es)|) <= 0xff
    ensures |RecordWords(es, last)| <= MWeight(schema, Message(name), MMessage(st))
  {
    hide FieldsKept, MFieldWeights, RecordWords, Trim, DataSize, FieldsWithin;
    StateBounded(schema, hash, name, schema[name].slots, st, es);
    RecordWithin(es, last, MFieldWeights(schema, schema[name].slots, st));
  }

  lemma IsRecord(schema: Schema, hash: Hash, name: Name, st: State)
    requires ValidState(schema, hash, name, st)
    ensures name in schema && schema[name].Record?
  {
  }

  lemma NoFieldsKept(schema: Schema, hash: Hash, name: Name, slots: seq<Slot>, st: State, es: seq<seq<u32>>)
    requires |es| <= |slots|
    ensures FieldsKept(schema, hash, name, slots, st, |es|, es)
  {
  }

  lemma DoneParts(schema: Schema, hash: Hash, name: Name, slots: seq<Slot>, st: State, id: nat, unit: Unit, e: seq<u32>,
                  before: seq<u32>, after: seq<u32>)
    requires Live(slots, id) && FieldDone(schema, hash, name, slots, st, id, unit, e, before, after)
    ensures if |e| <= 3 then unit == InlineUnit(e) && after == before
            else unit == SegmentUnit(|before|, |before| + |e|) && after == e + before
    ensures FieldOk(schema, hash, name, slots, st, id, e)
  {
    hide FieldOk;
  }

  /** The words of an untouched message start with the words that convey its fields, and are those
      words exactly when detection finds them all. */
  lemma CleanFaithful(schema: Schema, hash: Hash, name: Name, st: State)
    requires ValidState(schema, hash, name, st) && IsClean(st)
    ensures name in schema && st.words.value != []
    ensures MFaithful(schema, hash, Message(name), MMessage(st), st.words.value)
  {
    hide StateFields, MRead, Omits, Conveys, DetectObject, Tight, Canonical, EncodingOf;
    var v, core, rest := SourceParts(schema, hash, name, st.words.value);
    CleanFields(schema, hash, name, st, v, core, rest);
    MessageIs(schema, name, st);
    assert core <= st.words.value;
    if Tight(schema, Message(name), MMessage(st)) {
      TightClean(schema, name, st);
      CoreExtent(schema, hash, Message(name), v, core, rest);
      assert rest == [];
      assert st.words.value == core;
    }
    if Canonical(schema, hash, Message(name), MMessage(st)) { CanonicalClean(schema, hash, name, st); }
  }

  lemma CanonicalClean(schema: Schema, hash: Hash, name: Name, st: State)
    requires ValidState(schema, hash, name, st) && IsClean(st) && name in schema && schema[name].Record?
    requires Canonical(schema, hash, Message(name), MMessage(st))
    ensures EncodingOf(schema, hash, Message(name), VRecord(StateFields(schema, schema[name].slots, st)),
        st.words.value)
  {
    hide StateFields, Conveys, EncodingOf, ValidState;
    var w :| EncodingOf(schema, hash, Message(name), w, st.words.value);
    FormatConveys(schema, hash, Message(name), w, st.words.value);
    ConveyedShape(schema, hash, Message(name), w, st.words.value);
    assert st.words.value == st.words.value + [];
    CleanFields(schema, hash, name, st, w, st.words.value, []);
  }

  lemma TightClean(schema: Schema, name: Name, st: State)
    requires name in schema && schema[name].Record? && IsClean(st) && Tight(schema, Message(name), MMessage(st))
    ensures DetectObject(schema, Message(name), st.words.value) == Some(|st.words.value|)
  {
  }

  /** What the scan needs of the fields: their words, and scalars as long as their type. */
  lemma StateCells(schema: Schema, hash: Hash, name: Name, slots: seq<Slot>, st: State, es: seq<seq<u32>>)
    requires FieldsKept(schema, hash, name, slots, st, 0, es) && AllSound(schema, slots, st, es)
    ensures CellsOfTypes(slots, OccupiedFields(slots, st), es)
  {
    hide Framed, FieldMeaning, FieldSound, Conveys, FieldIn, Occupied, EncodingOf, InFormat;
    forall id | 0 <= id < |es| && es[id] != []
      ensures id in OccupiedFields(slots, st) && Live(slots, id)
          && (IsScalar(slots[id].ty) ==> |es[id]| == CellWidth(slots, id))
    {
      assert FieldKept(schema, hash, name, slots, st, id, es[id]);
      FramedCell(schema, hash, slots[id].ty, FieldMeaning(schema, slots, st, id).value, es[id]);
      MeaningOccupied(schema, slots, st, id);
    }
  }

  lemma MeaningOccupied(schema: Schema, slots: seq<Slot>, st: State, id: nat)
    requires Live(slots, id) && FieldMeaning(schema, slots, st, id).Some?
    ensures Occupied(st, id)
  {
    hide FieldIn, ReadField, MRead, Omits;
    if Has(st.accessed, id) {
      AccessedIs(schema, slots, st, id);
      SlotIs(schema, slots[id].ty, st.slots[id]);
    }
  }

  /** The fields one by one make up the record. */
  lemma StateKept(schema: Schema, hash: Hash, name: Name, st: State, es: seq<seq<u32>>, last: nat)
    requires name in schema && schema[name].Record? && !IsClean(st) && RecordFits(es)
    requires |es| == LiveCount(schema[name].slots) && FieldsKept(schema, hash, name, schema[name].slots, st, 0, es)
    requires !Overrun(schema, Message(name), MMessage(st), RecordWords(es, last))
    requires |RecordWords(es, last)| == 1 ==> forall id :: 0 <= id < |es| ==> es[id] == []
    requires (forall id :: 0 <= id < |es| ==> es[id] == []) ==> RecordWords(es, last) == [0]
    ensures MFaithful(schema, hash, Message(name), MMessage(st), RecordWords(es, last))
  {
    hide Framed, Conveys, EncodingOf, Canonical, RecordWords, Trim, DataSize, FieldMeaning, CountsFit, MRead, Omits,
         StateFields, FieldKept, Tight, Overrun, AllSound, IsOneWord, FieldsKept, OccupiedFields, CellsOfTypes;
    var slots := schema[name].slots;
    MessageIs(schema, name, st);
    FieldsSound(schema, name, st, es, last);
    StateCells(schema, hash, name, slots, st, es);
    StateEncodes(schema, hash, name, st, es, last);
    OneWordIs(schema, hash, name, st, es);
  }

  lemma TightParts(schema: Schema, name: Name, st: State)
    requires name in schema && schema[name].Record? && !IsClean(st) && Tight(schema, Message(name), MMessage(st))
    ensures forall id :: Live(schema[name].slots, id) ==> TightField(schema, schema[name].slots, st, id)
  {
    hide Has;
  }

  lemma OneWordIs(schema: Schema, hash: Hash, name: Name, st: State, es: seq<seq<u32>>)
    requires name in schema && schema[name].Record? && !IsClean(st)
    requires |es| == LiveCount(schema[name].slots) && FieldsKept(schema, hash, name, schema[name].slots, st, 0, es)
    requires AllSound(schema, schema[name].slots, st, es)
    ensures IsOneWord(schema, schema[name].slots, st) <==> forall id :: 0 <= id < |es| ==> es[id] == []
  {
    hide Writes, FieldMeaning, FieldSound, TightField, CanonicalField;
    var slots := schema[name].slots;
    forall id: nat | Live(slots, id) ensures FieldMeaning(schema, slots, st, id).None? <==> es[id] == [] {
      assert FieldKept(schema, hash, name, slots, st, id, es[id]);
    }
    forall id | 0 <= id < |es| && !Live(slots, id) ensures es[id] == [] { assert es[id] == es[id]; }
  }

  lemma CanonicalParts(schema: Schema, hash: Hash, name: Name, st: State)
    requires name in schema && schema[name].Record? && !IsClean(st)
        && Canonical(schema, hash, Message(name), MMessage(st))
    ensures forall id :: Live(schema[name].slots, id) ==> CanonicalField(schema, hash, name, schema[name].slots, st, id)
  {
    hide Has, InFormat;
  }

  /** The words of all fields, up to the last field number of the schema. */
  lemma AllFields(schema: Schema, hash: Hash, name: Name, st: State, es: seq<seq<u32>>) returns (all: seq<seq<u32>>)
    requires name in schema && schema[name].Record?
    requires |es| == LiveCount(schema[name].slots) && FieldsKept(schema, hash, name, schema[name].slots, st, 0, es)
    requires AllSound(schema, schema[name].slots, st, es)
    ensures |all| == |schema[name].slots| && Trim(all) == Trim(es)
    ensures var slots, fields := schema[name].slots, StateFields(schema, schema[name].slots, st);
            && (forall id {:trigger all[id]} :: 0 <= id < |all| ==> (all[id] != [] <==> id in fields))
            && forall id :: id in fields ==>
                 && Live(slots, id)
                 && Writes(schema, hash, slots[id].ty, fields[id], TightField(schema, slots, st, id),
                           CanonicalField(schema, hash, name, slots, st, id), all[id])
  {
    hide Writes, FieldMeaning, FieldSound, TightField, CanonicalField, Trim;
    var slots := schema[name].slots;
    var fields := StateFields(schema, slots, st);
    var more := seq(|slots| - |es|, _ => []);
    all := es + more;
    TrimMore(es, more);
    forall id: nat | id < |all|
      ensures all[id] != [] <==> id in fields
      ensures id in fields ==> Writes(schema, hash, slots[id].ty, fields[id], TightField(schema, slots, st, id),
                                      CanonicalField(schema, hash, name, slots, st, id), all[id])
    {
      if id < |es| {
        assert all[id] == es[id];
        if Live(slots, id) { assert FieldKept(schema, hash, name, slots, st, id, es[id]); }
      }
    }
  }

  lemma StateEncodes(schema: Schema, hash: Hash, name: Name, st: State, es: seq<seq<u32>>, last: nat)
    requires name in schema && schema[name].Record? && !IsClean(st)
    requires |es| == LiveCount(schema[name].slots) && FieldsKept(schema, hash, name, schema[name].slots, st, 0, es)
    requires AllSound(schema, schema[name].slots, st, es)
    requires RecordFits(es) && CountsFit(es, last)
    ensures Sections(|Trim(es)|) <= 0xff
    ensures Writes(schema, hash, Message(name), VRecord(StateFields(schema, schema[name].slots, st)),
                   Tight(schema, Message(name), MMessage(st)), Canonical(schema, hash, Message(name), MMessage(st)),
                   RecordWords(es, last))
  {
    hide Framed, Conveys, EncodingOf, RecordWords, Trim, DataSize, FieldMeaning, CountsFit, Tight, AllSound, TightField,
         Canonical, CanonicalField, StateFields, FieldsKept;
    var slots, ty := schema[name].slots, Message(name);
    var fields := StateFields(schema, slots, st);
    var all := AllFields(schema, hash, name, st, es);
    SameTrim(all, es, last);
    assert FieldsFramed(schema, hash, slots, fields, all);
    RecordFramed(schema, hash, name, fields, all, last);
    if Tight(schema, ty, MMessage(st)) {
      TightParts(schema, name, st);
      assert FieldsWhole(schema, hash, slots, fields, all);
    }
    if Canonical(schema, hash, ty, MMessage(st)) {
      CanonicalParts(schema, hash, name, st);
      assert FieldsOf(schema, hash, slots, VRecord(fields), all);
      RecordFormat(schema, hash, name, VRecord(fields), all, last);
    }
  }

  lemma {:induction false} TrimMore(es: seq<seq<u32>>, more: seq<seq<u32>>)
    requires forall i :: 0 <= i < |more| ==> more[i] == []
    ensures Trim(es + more) == Trim(es)
    decreases |more|
  {
    if more == [] {
      assert es + more == es;
    } else {
      TrimMore(es, more[..|more| - 1]);
      assert (es + more)[..|es + more| - 1] == es + more[..|more| - 1];
    }
  }

  lemma SameTrim(a: seq<seq<u32>>, b: seq<seq<u32>>, last: nat)
    requires Trim(a) == Trim(b) && RecordFits(b) && CountsFit(b, last)
    ensures RecordFits(a) && CountsFit(a, last) && RecordWords(a, last) == RecordWords(b, last)
  {
    hide Trim, MessageWords, Payload, DataSize, CountFits, Units;
  }

  // ----- values

  method EncodeM(schema: Schema, hash: Hash, clock: Clock, ty: Type, mv: MValue, buffer: Buffer)
    returns (unit: Option<Unit>, ghost words: seq<u32>)
    requires buffer.Valid() && ValidValue(schema, hash, ty, mv)
    modifies buffer.Repr()
    ensures buffer.Valid() && fresh(buffer.Repr() - old(buffer.Repr()))
    ensures unit.Some? ==> MEncoded(schema, hash, ty, mv, unit.value, words, old(buffer.View()), buffer.View())
    ensures MAccepted(schema, hash, clock, ty, mv) ==> unit.Some?
    decreases mv, 5
  {
    hide Buffer.View, MFaithful, StringWords, ValidState, MAccepted, MWeight;
    PlainWeight(schema, hash, clock, ty, mv);
    words := [];
    match mv {
      case MBool(b) =>
        words := [if b then 1 else 0];
        PlainReads(schema, hash, ty, mv, words);
        unit := Some(InlineUnit([if b then 1 else 0]));
      case MNum(numWords) =>
        words := numWords;
        PlainReads(schema, hash, ty, mv, words);
        unit := Some(InlineUnit(numWords));
      case MBytes(bytes) =>
        words := StringWords(bytes);
        unit := SerializeBytes(bytes, buffer);
        if unit.Some? {
          BytesFaithful(schema, hash, mv);
          TextWithin(bytes);
        }
      case MList(_) =>
        unit, words := EncodeArray(schema, hash, clock, ty, mv, buffer);
      case MMap(_) =>
        unit, words := EncodeMapToUnit(schema, hash, clock, ty, mv, buffer);
      case MMessage(st) =>
        unit, words := EncodeState(schema, hash, clock, ty.name, st, buffer);
    }
  }

  lemma PlainWeight(schema: Schema, hash: Hash, clock: Clock, ty: Type, mv: MValue)
    ensures mv.MBool? ==> MWeight(schema, ty, mv) == 1
    ensures mv.MNum? ==> MWeight(schema, ty, mv) == |mv.words|
    ensures mv.MBytes? ==> MWeight(schema, ty, mv) == |mv.bytes| + 2
    ensures mv.MBytes? && MAccepted(schema, hash, clock, ty, mv) ==> |mv.bytes| < MAX_LEN
  {
    hide IndexFails, MItemWeights, MEntryWeights, MFieldWeights;
  }

  lemma BytesFaithful(schema: Schema, hash: Hash, mv: MValue)
    requires mv.MBytes? && |mv.bytes| < MAX_LEN
    ensures MFaithful(schema, hash, Text, mv, StringWords(mv.bytes))
  {
    hide StringWords, MRead;
    PlainIs(schema, Text, mv);
    EncodingWrites(schema, hash, Text, VBytes(mv.bytes), StringWords(mv.bytes));
  }

  lemma PlainReads(schema: Schema, hash: Hash, ty: Type, mv: MValue, words: seq<u32>)
    requires ValidValue(schema, hash, ty, mv)
    requires match mv
             case MBool(b) => words == [if b then 1 else 0]
             case MNum(numWords) => words == numWords
             case _ => false
    ensures MFaithful(schema, hash, ty, mv, words) && 1 <= |words| <= 3
  {
    hide Framed, Conveys;
    EncodingWrites(schema, hash, ty, MRead(schema, ty, mv), words);
  }

  // ----- arrays

  method MutableBools(items: seq<MValue>) returns (bytes: seq<u8>)
    requires forall i :: 0 <= i < |items| ==> items[i].MBool?
    ensures |bytes| == |items| && forall i :: 0 <= i < |items| ==> bytes[i] == if items[i].b then 1 else 0
  {
    bytes := [];
    for i := 0 to |items|
      invariant |bytes| == i && forall j :: 0 <= j < i ==> bytes[j] == if items[j].b then 1 else 0
    {
      bytes := bytes + [if items[i].b then 1 else 0];
    }
  }

  lemma BoolsFaithful(schema: Schema, hash: Hash, ty: Type, mv: MValue, bytes: seq<u8>)
    requires ValidValue(schema, hash, ty, mv) && mv.MList? && ItemType(schema, ty) == Some(Bool) && |mv.items| < MAX_LEN
    requires |bytes| == |mv.items| && forall i :: 0 <= i < |bytes| ==>
        mv.items[i].MBool? && bytes[i] == if mv.items[i].b then 1 else 0
    ensures MFaithful(schema, hash, ty, mv, StringWords(bytes))
  {
    hide Conveys, EncodingOf, StringWords, MRead;
    ListIs(schema, ty, Bool, mv);
    var items := MRead(schema, ty, mv).items;
    forall i | 0 <= i < |items| ensures items[i] == VBool(mv.items[i].b) {
      PlainIs(schema, Bool, mv.items[i]);
    }
    assert bytes == BoolBytes(items);
    BoolFormat(schema, hash, VList(items));
    ShapeEncodes(schema, hash, ty, VList(items), StringWords(bytes));
    ShapeEncodes(schema, hash, List(Bool), VList(items), StringWords(bytes));
    EncodingWrites(schema, hash, ty, VList(items), StringWords(bytes));
  }

  function NumWords(items: seq<MValue>): (es: seq<seq<u32>>)
    requires forall i :: 0 <= i < |items| ==> items[i].MNum?
    ensures |es| == |items| && forall i :: 0 <= i < |items| ==> es[i] == items[i].words
  {
    seq(|items|, i requires 0 <= i < |items| => items[i].words)
  }

  function Flatten(es: seq<seq<u32>>): seq<u32> {
    if es == [] then [] else es[0] + Flatten(es[1..])
  }

  lemma {:induction false} FlatLength(es: seq<seq<u32>>, width: nat)
    requires forall j :: 0 <= j < |es| ==> |es[j]| == width
    ensures |Flatten(es)| == |es| * width
  {
    if es != [] {
      FlatLength(es[1..], width);
      Distribute(|es|, width);
    }
  }

  lemma FlattenHead(es: seq<seq<u32>>)
    requires es != []
    ensures Flatten(es) == es[0] + Flatten(es[1..])
  {
  }

  lemma {:induction false} FlatAt(es: seq<seq<u32>>, width: nat, i: nat)
    requires (forall j :: 0 <= j < |es| ==> |es[j]| == width) && i <= |es|
    ensures |Flatten(es)| == |es| * width && i * width <= |Flatten(es)|
    ensures Flatten(es)[i * width..] == Flatten(es[i..])
    decreases i
  {
    hide Flatten;
    FlatLength(es, width);
    if i == 0 {
      assert es[0..] == es && 0 * width == 0;
    } else {
      FlatAt(es[1..], width, i - 1);
      Distribute(i, width);
      FlattenHead(es);
      assert es[1..][i - 1..] == es[i..];
      var n := (i - 1) * width;
      assert (es[0] + Flatten(es[1..]))[width + n..] == Flatten(es[1..])[n..];
    }
  }

  /** Words the scalar loop leaves: the count goes into the header unchecked. */
  function ScalarsWords(es: seq<seq<u32>>, width: ScalarWidth): (words: seq<u32>) {
    [(|es| % TWO32) * 4 % TWO32 + width] + Flatten(es)
  }

  lemma LowerBits(m: nat)
    requires m < TWO32
    ensures m * 4 % TWO32 == 4 * (m % C.MAX_SIZE)
  {
    var q := m / C.MAX_SIZE;
    assert m == C.MAX_SIZE * q + m % C.MAX_SIZE;
    assert m * 4 == TWO32 * q + 4 * (m % C.MAX_SIZE);
  }

  lemma LowerCount(n: nat)
    ensures n % TWO32 % C.MAX_SIZE == n % C.MAX_SIZE
  {
    assert n == C.MAX_SIZE * (4 * (n / TWO32)) + n % TWO32;
  }

  /** Elements as wide as the cells: the body is just the elements. */
  lemma {:induction false} FlatBody(es: seq<seq<u32>>, width: nat, skip: nat)
    requires 1 <= width <= 3 && forall i :: 0 <= i < |es| ==> |es[i]| == width
    ensures CellsOf(ItemsOf(es, width), skip) == Flatten(es) && Payload(ItemsOf(es, width)) == []
    decreases es
  {
    if es != [] {
      FlatBody(es[1..], width, skip);
      assert ItemsOf(es, width)[1..] == ItemsOf(es[1..], width);
      assert es[0] + Zeros(0) == es[0];
    }
  }

  /** Below 2^30 words the scalar loop leaves the array layout the general encoder would. */
  lemma FlatArray(es: seq<seq<u32>>, width: ScalarWidth)
    requires es != [] && (forall i :: 0 <= i < |es| ==> |es[i]| == width) && |es| * width < C.MAX_SIZE
    ensures ArrayFits(es) && C.ArrayWords(es) == ScalarsWords(es, width)
  {
    hide BestWidth, CellsOf, Payload, Cost, Flatten;
    WidthOfScalars(es, width);
    UniformCost(Lens(es), width, width);
    FlatBody(es, width, 0);
    assert Flatten(es) + [] == Flatten(es);
    if width == 2 { assert |es| * 2 >= |es|; }
    assert |es| < C.MAX_SIZE;
  }

  lemma CountOf(n: nat, width: ScalarWidth)
    ensures ((n % TWO32) * 4 % TWO32 + width) % 4 == width
    ensures ((n % TWO32) * 4 % TWO32 + width) / 4 == n % C.MAX_SIZE
  {
    LowerCount(n);
    LowerBits(n % TWO32);
  }

  lemma Fewer(a: nat, b: nat, width: nat)
    requires a <= b
    ensures a * width <= b * width
  {
  }

  /** The reader finds all elements if and only if there are fewer than 2^30. */
  lemma ScalarCountIff(es: seq<seq<u32>>, width: ScalarWidth, suffix: seq<u32>)
    requires forall i :: 0 <= i < |es| ==> |es[i]| == width
    ensures var view := NewArray(ScalarsWords(es, width) + suffix);
            && view.Some? && view.value.width == width
            && (view.value.len == |es| <==> |es| < C.MAX_SIZE)
  {
    hide Flatten;
    CountOf(|es|, width);
    FlatAt(es, width, 0);
    var len := |es| % C.MAX_SIZE;
    Fewer(len, |es|, width);
  }

  /** A list of 2^30 scalars reads back empty. */
  lemma CountLost(suffix: seq<u32>)
    ensures var es := seq(C.MAX_SIZE, _ => [1]);
            NewArray(ScalarsWords(es, 1) + suffix).Some? && NewArray(ScalarsWords(es, 1) + suffix).value.len == 0
  {
    hide Flatten;
    var es := seq(C.MAX_SIZE, _ => [1]);
    CountOf(|es|, 1);
    assert (ScalarsWords(es, 1) + suffix)[0] == 1;
  }

  lemma ScalarCell(es: seq<seq<u32>>, width: ScalarWidth, suffix: seq<u32>, i: nat)
    requires (forall j :: 0 <= j < |es| ==> |es[j]| == width) && i < |es| < C.MAX_SIZE
    ensures var words := ScalarsWords(es, width) + suffix;
            && NewArray(words).Some? && NewArray(words).value.len == |es|
            && ArrayCell(words, i).RawWords() == Some(es[i])
  {
    ScalarCountIff(es, width, suffix);
    FlatAt(es, width, i);
    var words := ScalarsWords(es, width) + suffix;
    assert words[1..] == Flatten(es) + suffix;
    assert words[1..][i * width..] == Flatten(es)[i * width..] + suffix == es[i] + (Flatten(es[i..][1..]) + suffix);
  }

  /** Fewer than 2^30 scalars convey the list. */
  lemma ScalarsConvey(schema: Schema, hash: Hash, ty: Type, width: ScalarWidth, es: seq<seq<u32>>)
    requires ItemType(schema, ty) == Some(Scalar(width)) && |es| < C.MAX_SIZE
    requires forall i :: 0 <= i < |es| ==> |es[i]| == width
    ensures Conveys(schema, hash, ty, VList(seq(|es|, i requires 0 <= i < |es| => VNum(es[i]))),
        ScalarsWords(es, width))
  {
    hide ScalarsWords, Flatten, DetectObject, NewArray, Conveys;
    var words, item, vs := ScalarsWords(es, width), Scalar(width), seq(|es|, i requires 0 <= i < |es| => VNum(es[i]));
    ScalarsTag(es, width);
    forall suffix ensures ArrayOver(item, es, words + suffix)
        && DetectObject(schema, ty, words + suffix) == Some(|words|) {
      ScalarCountIff(es, width, suffix);
      forall i | 0 <= i < |es| ensures StartsWith(ArrayCell(words + suffix, i), es[i], true) {
        ScalarCell(es, width, suffix, i);
      }
      ShapeReads(schema, ty, words + suffix);
    }
    ScalarItems(schema, hash, width, es);
    assert ConveysList(schema, hash, item, VList(vs), words);
    ObjectConveys(schema, hash, ty, VList(vs), words);
  }

  lemma ScalarItems(schema: Schema, hash: Hash, width: ScalarWidth, es: seq<seq<u32>>)
    requires forall i :: 0 <= i < |es| ==> |es[i]| == width
    ensures ItemsConveyed(schema, hash, Scalar(width), VList(seq(|es|, i requires 0 <= i < |es| => VNum(es[i]))), es)
  {
  }

  lemma ScalarsTag(es: seq<seq<u32>>, width: ScalarWidth)
    requires forall i :: 0 <= i < |es| ==> |es[i]| == width
    ensures NotAPointer(ScalarsWords(es, width)) && |ScalarsWords(es, width)| == 1 + |es| * width
  {
    CountOf(|es|, width);
    FlatAt(es, width, 0);
  }

  /** The scalar loop: elements from the last to the first, then the header. */
  method EncodeScalars(items: seq<MValue>, width: ScalarWidth, buffer: Buffer) returns (unit: Unit)
    requires buffer.Valid() && forall i :: 0 <= i < |items| ==> items[i].MNum? && |items[i].words| == width
    modifies buffer.Repr()
    ensures buffer.Valid() && fresh(buffer.Repr() - old(buffer.Repr()))
    ensures buffer.View() == ScalarsWords(NumWords(items), width) + old(buffer.View())
    ensures unit == SegmentUnit(|old(buffer.View())|, |buffer.View()|)
  {
    hide Buffer.View, Flatten, NumWords;
    ghost var before, es := buffer.View(), NumWords(items);
    var last := buffer.Len();
    var i := |items|;
    NothingFlat(es, before);
    while i > 0
      invariant 0 <= i <= |items| && buffer.Valid() && fresh(buffer.Repr() - old(buffer.Repr()))
      invariant buffer.View() == Flatten(es[i..]) + before
    {
      i := i - 1;
      FlattenStep(es, i, before);
      buffer.PutWords(items[i].words);
    }
    assert es[0..] == es;
    buffer.Put((|items| % TWO32) * 4 % TWO32 + width);
    assert buffer.View() == ScalarsWords(es, width) + before;
    unit := SegmentUnit(last, buffer.Len());
  }

  lemma NothingFlat(es: seq<seq<u32>>, before: seq<u32>)
    ensures before == Flatten(es[|es|..]) + before
  {
    assert es[|es|..] == [];
  }

  lemma FlattenStep(es: seq<seq<u32>>, i: nat, before: seq<u32>)
    requires i < |es|
    ensures es[i] + (Flatten(es[i + 1..]) + before) == Flatten(es[i..]) + before
  {
    assert es[i..][0] == es[i] && es[i..][1..] == es[i + 1..];
  }

  /** What is promised of an encoded element. */
  ghost predicate ElementKept(schema: Schema, hash: Hash, ty: Type, mv: MValue, e: seq<u32>) {
    && |e| <= MWeight(schema, ty, mv)
    && (!Overrun(schema, ty, mv, e) ==>
          Writes(schema, hash, ty, MRead(schema, ty, mv), Tight(schema, ty, mv), Canonical(schema, hash, ty, mv), e))
  }

  ghost predicate ElementsKept(schema: Schema, hash: Hash, item: Type, items: seq<MValue>, i: nat, es: seq<seq<u32>>) {
    && i + |es| == |items|
    && forall j {:trigger es[j]} :: 0 <= j < |es| ==> ElementKept(schema, hash, item, items[i + j], es[j])
  }

  lemma ElementsKeptStep(schema: Schema, hash: Hash, item: Type, items: seq<MValue>, i: nat, es: seq<seq<u32>>,
                         e: seq<u32>)
    requires i > 0 && ElementsKept(schema, hash, item, items, i, es) && ElementKept(schema, hash, item, items[i - 1], e)
    ensures ElementsKept(schema, hash, item, items, i - 1, [e] + es)
  {
    hide ElementKept;
    var es' := [e] + es;
    forall j | 0 <= j < |es'| ensures ElementKept(schema, hash, item, items[i - 1 + j], es'[j]) {
      if j > 0 { assert es'[j] == es[j - 1] && items[i - 1 + j] == items[i + (j - 1)]; }
    }
  }

  /** encode_object_array: elements from the last to the first, then compaction in place. */
  method EncodeObjects(schema: Schema, hash: Hash, clock: Clock, item: Type, mv: MValue, buffer: Buffer)
    returns (unit: Option<Unit>, ghost es: seq<seq<u32>>)
    requires buffer.Valid() && mv.MList? && mv.items != [] && forall i :: 0 <= i < |mv.items| ==>
        ValidValue(schema, hash, item, mv.items[i])
    modifies buffer.Repr()
    ensures buffer.Valid() && fresh(buffer.Repr() - old(buffer.Repr()))
    ensures unit.Some? ==> ElementsKept(schema, hash, item, mv.items, 0, es) && ArrayFits(es)
    ensures unit.Some? ==>
        buffer.View() == C.ArrayWords(es) + old(buffer.View())
            && unit == Some(SegmentUnit(|old(buffer.View())|, |buffer.View()|))
    ensures ItemsAccepted(schema, hash, clock, item, mv) ==> unit.Some?
    decreases mv, 0
  {
    hide Buffer.View, C.ArrayWords, Held, ElementsKept, MEncoded, ElementKept, Delivers, ValidValue, InOrder,
         C.ArrayEncoded, Cost, ItemsAccepted;
    var n := |mv.items|;
    var units := new Unit[n](_ => EMPTY);
    ghost var before := buffer.View();
    var last := buffer.Len();
    es := [];
    ghost var done: seq<Unit> := [];
    NoneHeld(before);
    NoneInOrder(|before|, last);
    NoneKept(schema, hash, item, mv.items);
    var i := n;
    while i > 0
      invariant 0 <= i <= n && buffer.Valid() && fresh(buffer.Repr() - old(buffer.Repr()))
      invariant units[i..] == done && Held(done, es, before, buffer.View())
      invariant last <= |buffer.View()| && InOrder(done, |buffer.View()|, last)
      invariant ElementsKept(schema, hash, item, mv.items, i, es)
    {
      i := i - 1;
      ghost var view := buffer.View();
      var element;
      ghost var e;
      element, e := EncodeM(schema, hash, clock, item, mv.items[i], buffer);
      if element.None? {
        if ItemsAccepted(schema, hash, clock, item, mv) { AcceptedElement(schema, hash, clock, item, mv, i); }
        return None, es;
      }
      MParts(schema, hash, item, mv.items[i], element.value, e, view, buffer.View());
      HeldStep(done, es, before, view, element.value, e, buffer.View());
      InOrderStep(done, last, view, element.value, e, buffer.View());
      ElementsKeptStep(schema, hash, item, mv.items, i + 1, es, e);
      units[i] := element.value;
      done, es := [element.value] + done, [e] + es;
      assert units[i..] == [units[i]] + units[i + 1..];
    }
    ghost var view := buffer.View();
    assert units[..] == done;
    if ItemsAccepted(schema, hash, clock, item, mv) {
      ObjectsPass(schema, hash, clock, item, mv, done, es, before, view);
    }
    unit := C.SerializeArrayAtMut(units, buffer, last);
    if unit.Some? { ArrayParts(done, es, before, view, unit.value, buffer.View()); }
  }

  ghost predicate ItemsAccepted(schema: Schema, hash: Hash, clock: Clock, item: Type, mv: MValue)
    requires mv.MList?
  {
    && (forall i :: 0 <= i < |mv.items| ==> MWellFormed(schema, hash, clock, item, mv.items[i]))
    && Total(MItemWeights(schema, item, mv)) < C.MAX_SIZE
  }

  lemma AcceptedElement(schema: Schema, hash: Hash, clock: Clock, item: Type, mv: MValue, i: nat)
    requires mv.MList? && ItemsAccepted(schema, hash, clock, item, mv) && i < |mv.items|
    ensures MAccepted(schema, hash, clock, item, mv.items[i])
  {
    TotalCovers(MItemWeights(schema, item, mv), i);
  }

  lemma ElementsBounded(schema: Schema, hash: Hash, item: Type, mv: MValue, es: seq<seq<u32>>)
    requires mv.MList? && ElementsKept(schema, hash, item, mv.items, 0, es)
    ensures ItemsWithin(es, MItemWeights(schema, item, mv))
  {
    hide Writes, Overrun, MWeight;
    var bounds := MItemWeights(schema, item, mv);
    forall i | 0 <= i < |es| ensures |es[i]| + 1 <= bounds[i] {
      assert ElementKept(schema, hash, item, mv.items[0 + i], es[i]);
    }
  }

  lemma ObjectsPass(schema: Schema, hash: Hash, clock: Clock, item: Type, mv: MValue, units: seq<Unit>,
                    es: seq<seq<u32>>, before: seq<u32>, view: seq<u32>)
    requires mv.MList? && ItemsAccepted(schema, hash, clock, item, mv) && Held(units, es, before, view)
    requires ElementsKept(schema, hash, item, mv.items, 0, es)
    ensures Cost(C.Sizes(units), BestWidth(C.Sizes(units))) < C.MAX_SIZE
  {
    hide Cost, BestWidth, ElementsKept, MItemWeights, ItemsWithin;
    ElementsBounded(schema, hash, item, mv, es);
    ArrayWithin(es, MItemWeights(schema, item, mv));
    C.SizesAreLens(units, view);
  }

  lemma ArrayWeight(schema: Schema, hash: Hash, item: Type, mv: MValue, es: seq<seq<u32>>)
    requires mv.MList? && ElementsKept(schema, hash, item, mv.items, 0, es) && ArrayFits(es)
    ensures |C.ArrayWords(es)| <= 1 + Total(MItemWeights(schema, item, mv))
  {
    hide Cost, BestWidth, ElementsKept, MItemWeights, ItemsWithin;
    ElementsBounded(schema, hash, item, mv, es);
    ArrayWithin(es, MItemWeights(schema, item, mv));
  }

  lemma NoneKept(schema: Schema, hash: Hash, item: Type, items: seq<MValue>)
    ensures ElementsKept(schema, hash, item, items, |items|, [])
  {
  }

  lemma MParts(schema: Schema, hash: Hash, ty: Type, mv: MValue, unit: Unit, words: seq<u32>, before: seq<u32>,
               after: seq<u32>)
    requires MEncoded(schema, hash, ty, mv, unit, words, before, after)
    ensures Delivers(unit, words, before, after)
    ensures ElementKept(schema, hash, ty, mv, words)
  {
    hide Delivers, Writes, MRead, Omits, Tight, Canonical, Overrun;
  }

  lemma ArrayParts(units: seq<Unit>, es: seq<seq<u32>>, before: seq<u32>, view: seq<u32>, unit: Unit, after: seq<u32>)
    requires units != [] && Held(units, es, before, view) && C.ArrayEncoded(units, view, |before|, unit, after)
    ensures ArrayFits(es) && unit == SegmentUnit(|before|, |after|) && after == C.ArrayWords(es) + before
  {
    hide Cost, BestWidth, C.ArrayWords;
  }

  method EncodeArray(schema: Schema, hash: Hash, clock: Clock, ty: Type, mv: MValue, buffer: Buffer)
    returns (unit: Option<Unit>, ghost words: seq<u32>)
    requires buffer.Valid() && ValidValue(schema, hash, ty, mv) && mv.MList?
    modifies buffer.Repr()
    ensures buffer.Valid() && fresh(buffer.Repr() - old(buffer.Repr()))
    ensures unit.Some? ==> MEncoded(schema, hash, ty, mv, unit.value, words, old(buffer.View()), buffer.View())
    ensures MAccepted(schema, hash, clock, ty, mv) ==> unit.Some?
    decreases mv, 1
  {
    hide Buffer.View, C.ArrayWords, MFaithful, StringWords, ElementsKept, Cost, BestWidth, MRead, ScalarsWords, Overrun,
         MAccepted, MWeight, ItemsAccepted;
    ListWeight(schema, hash, clock, ty, mv);
    words := [];
    var item := ItemType(schema, ty).value;
    ghost var before := buffer.View();
    if item.Bool? {
      var bytes := MutableBools(mv.items);
      words := StringWords(bytes);
      unit := SerializeBytes(bytes, buffer);
      if unit.Some? {
        BoolsFaithful(schema, hash, ty, mv, bytes);
        TextWithin(bytes);
      }
    } else if mv.items == [] {
      words := EmptyList(item);
      NoItemsFaithful(schema, hash, ty, mv);
      unit := Some(InlineUnit(EmptyList(item)));
    } else if item.Scalar? {
      ScalarItemsValid(schema, hash, ty, mv);
      var encoded := EncodeScalars(mv.items, item.width, buffer);
      words := ScalarsWords(NumWords(mv.items), item.width);
      ScalarsTag(NumWords(mv.items), item.width);
      ScalarsWeight(schema, item, mv);
      if !Overrun(schema, ty, mv, words) {
        ScalarsSound(schema, ty, mv, words);
        ScalarsFaithful(schema, hash, ty, mv);
      }
      unit := Some(encoded);
    } else {
      ghost var es;
      unit, es := EncodeObjects(schema, hash, clock, item, mv, buffer);
      if unit.Some? {
        words := C.ArrayWords(es);
        LongArray(es);
        ArrayWeight(schema, hash, item, mv, es);
        if !Overrun(schema, ty, mv, words) { ObjectsFaithful(schema, hash, ty, mv, es); }
      }
    }
  }

  lemma ListWeight(schema: Schema, hash: Hash, clock: Clock, ty: Type, mv: MValue)
    requires mv.MList? && ItemType(schema, ty).Some?
    ensures var item := ItemType(schema, ty).value;
            && MWeight(schema, ty, mv)
                == (if item.Bool? then |mv.items| + 2 else 1 + Total(MItemWeights(schema, item, mv)))
            && (MAccepted(schema, hash, clock, ty, mv) ==>
                  if item.Bool? then |mv.items| < MAX_LEN else ItemsAccepted(schema, hash, clock, item, mv))
  {
    hide IndexFails, MItemWeights;
  }

  lemma ScalarsWeight(schema: Schema, item: Type, mv: MValue)
    requires mv.MList? && item.Scalar? && forall i :: 0 <= i < |mv.items| ==>
        mv.items[i].MNum? && |mv.items[i].words| == item.width
    ensures 1 + |mv.items| * item.width <= 1 + Total(MItemWeights(schema, item, mv))
  {
    var bounds := MItemWeights(schema, item, mv);
    forall i | 0 <= i < |bounds| ensures bounds[i] >= item.width {
      assert bounds[i] == 1 + MWeight(schema, item, mv.items[i]);
    }
    TotalAtLeast(bounds, item.width);
  }

  lemma {:induction false} TotalAtLeast(bounds: seq<nat>, least: nat)
    requires forall i :: 0 <= i < |bounds| ==> bounds[i] >= least
    ensures |bounds| * least <= Total(bounds)
  {
    if bounds != [] {
      TotalAtLeast(bounds[1..], least);
      Distribute(|bounds|, least);
    }
  }

  lemma LongArray(es: seq<seq<u32>>)
    requires ArrayFits(es)
    ensures C.ArrayWords(es) != []
  {
  }

  lemma NoItemsFaithful(schema: Schema, hash: Hash, ty: Type, mv: MValue)
    requires mv == MList([]) && ItemType(schema, ty).Some? && !ItemType(schema, ty).value.Bool?
    ensures MFaithful(schema, hash, ty, mv, EmptyList(ItemType(schema, ty).value))
  {
    hide Framed, Conveys;
    var item := ItemType(schema, ty).value;
    assert MRead(schema, ty, mv).items == [];
    assert ListEncoding(schema, hash, item, VList([]), EmptyList(item));
    ShapeEncodes(schema, hash, ty, VList([]), EmptyList(item));
    EncodingWrites(schema, hash, ty, VList([]), EmptyList(item));
  }

  lemma ScalarItemsValid(schema: Schema, hash: Hash, ty: Type, mv: MValue)
    requires ValidValue(schema, hash, ty, mv) && mv.MList? && ItemType(schema, ty).Some?
        && ItemType(schema, ty).value.Scalar?
    ensures forall i :: 0 <= i < |mv.items| ==>
        mv.items[i].MNum? && |mv.items[i].words| == ItemType(schema, ty).value.width
  {
  }

  lemma ScalarsFaithful(schema: Schema, hash: Hash, ty: Type, mv: MValue)
    requires ValidValue(schema, hash, ty, mv) && mv.MList? && 0 < |mv.items| < C.MAX_SIZE
    requires ItemType(schema, ty).Some? && ItemType(schema, ty).value.Scalar?
    ensures forall i :: 0 <= i < |mv.items| ==> mv.items[i].MNum?
    ensures MFaithful(schema, hash, ty, mv, ScalarsWords(NumWords(mv.items), ItemType(schema, ty).value.width))
  {
    hide Conveys, EncodingOf, MRead, ScalarsWords, Canonical;
    var item := ItemType(schema, ty).value;
    ScalarItemsValid(schema, hash, ty, mv);
    var es := NumWords(mv.items);
    ListIs(schema, ty, item, mv);
    var values := MRead(schema, ty, mv).items;
    forall i | 0 <= i < |es| ensures values[i] == VNum(es[i]) {
      PlainIs(schema, item, mv.items[i]);
    }
    assert values == seq(|es|, i requires 0 <= i < |es| => VNum(es[i]));
    ScalarsConvey(schema, hash, ty, item.width, es);
    FramesWhole(schema, hash, ty, VList(values), ScalarsWords(es, item.width));
    if Canonical(schema, hash, ty, mv) {
      CanonicalScalars(schema, hash, ty, mv);
      ScalarsEncode(schema, hash, ty, item.width, es, values);
    }
  }

  lemma CanonicalScalars(schema: Schema, hash: Hash, ty: Type, mv: MValue)
    requires mv.MList? && Canonical(schema, hash, ty, mv) && ItemType(schema, ty).Some?
        && ItemType(schema, ty).value.Scalar?
    ensures |mv.items| * ItemType(schema, ty).value.width < C.MAX_SIZE
  {
  }

  lemma ScalarsEncode(schema: Schema, hash: Hash, ty: Type, width: ScalarWidth, es: seq<seq<u32>>, values: seq<Value>)
    requires ItemType(schema, ty) == Some(Scalar(width)) && es != [] && |es| * width < C.MAX_SIZE && |values| == |es|
    requires forall i :: 0 <= i < |es| ==> |es[i]| == width && values[i] == VNum(es[i])
    ensures EncodingOf(schema, hash, ty, VList(values), ScalarsWords(es, width))
  {
    hide C.ArrayWords, ScalarsWords, BestWidth, Cost;
    FlatArray(es, width);
    assert ElementsOf(schema, hash, Scalar(width), VList(values), es);
    ListFormat(schema, hash, Scalar(width), VList(values), es);
    ShapeEncodes(schema, hash, ty, VList(values), ScalarsWords(es, width));
  }

  lemma ObjectsFaithful(schema: Schema, hash: Hash, ty: Type, mv: MValue, es: seq<seq<u32>>)
    requires mv.MList? && mv.items != [] && ItemType(schema, ty).Some?
    requires !ItemType(schema, ty).value.Bool? && !ItemType(schema, ty).value.Scalar?
    requires ElementsKept(schema, hash, ItemType(schema, ty).value, mv.items, 0, es) && ArrayFits(es)
    requires !Overrun(schema, ty, mv, C.ArrayWords(es))
    ensures MFaithful(schema, hash, ty, mv, C.ArrayWords(es))
  {
    hide Framed, Conveys, EncodingOf, C.ArrayWords, Cost, BestWidth, MRead, Overrun;
    var item := ItemType(schema, ty).value;
    ListIs(schema, ty, item, mv);
    ItemsSound(schema, ty, mv, es);
    var values := MRead(schema, ty, mv).items;
    forall i | 0 <= i < |es|
      ensures Framed(schema, hash, item, values[i], es[i])
      ensures Tight(schema, ty, mv) ==> Conveys(schema, hash, item, values[i], es[i])
      ensures Canonical(schema, hash, ty, mv) ==> EncodingOf(schema, hash, item, values[i], es[i])
    {
      assert ElementKept(schema, hash, item, mv.items[0 + i], es[i]);
    }
    ListFramed(schema, hash, ty, item, values, es);
    if Canonical(schema, hash, ty, mv) {
      assert ElementsOf(schema, hash, item, VList(values), es);
      ListFormat(schema, hash, item, VList(values), es);
      ShapeEncodes(schema, hash, ty, VList(values), C.ArrayWords(es));
      ShapeEncodes(schema, hash, List(item), VList(values), C.ArrayWords(es));
    }
  }

  // ----- maps

  ghost predicate PairsKept(schema: Schema, hash: Hash, kt: KeyType, vt: Type, ordered: seq<Key>,
                            entries: map<Key, MValue>, i: nat, ks: seq<seq<u32>>, es: seq<seq<u32>>) {
    && i + |ks| == |ordered| && |es| == |ks|
    && (forall j {:trigger ks[j]} :: 0 <= j < |ks| ==> EncodesKey(kt, ordered[i + j], ks[j]))
    && (forall j {:trigger es[j]} :: 0 <= j < |es| ==> PairKept(schema, hash, vt, entries, ordered[i + j], es[j]))
  }

  ghost predicate PairKept(schema: Schema, hash: Hash, vt: Type, entries: map<Key, MValue>, key: Key, e: seq<u32>) {
    key in entries && ElementKept(schema, hash, vt, entries[key], e)
  }

  lemma PairsKeptStep(schema: Schema, hash: Hash, kt: KeyType, vt: Type, ordered: seq<Key>, entries: map<Key, MValue>,
                      i: nat, ks: seq<seq<u32>>, es: seq<seq<u32>>, k: seq<u32>, e: seq<u32>)
    requires i > 0 && PairsKept(schema, hash, kt, vt, ordered, entries, i, ks, es)
    requires EncodesKey(kt, ordered[i - 1], k) && PairKept(schema, hash, vt, entries, ordered[i - 1], e)
    ensures PairsKept(schema, hash, kt, vt, ordered, entries, i - 1, [k] + ks, [e] + es)
  {
    hide PairKept, EncodesKey;
    var ks', es' := [k] + ks, [e] + es;
    forall j | 0 <= j < |ks'| ensures EncodesKey(kt, ordered[i - 1 + j], ks'[j])
        && PairKept(schema, hash, vt, entries, ordered[i - 1 + j], es'[j]) {
      if j > 0 { assert ks'[j] == ks[j - 1] && es'[j] == es[j - 1] && ordered[i - 1 + j] == ordered[i + (j - 1)]; }
    }
  }

  lemma NoPairsKept(schema: Schema, hash: Hash, kt: KeyType, vt: Type, ordered: seq<Key>, entries: map<Key, MValue>)
    ensures PairsKept(schema, hash, kt, vt, ordered, entries, |ordered|, [], [])
  {
  }

  lemma PairHalves(key: Unit, value: Unit, done: seq<(Unit, Unit)>)
    ensures Keys([(key, value)] + done) == [key] + Keys(done)
    ensures Values([(key, value)] + done) == [value] + Values(done)
  {
  }

  lemma PairJoins(key: Unit, value: Unit, done: seq<(Unit, Unit)>)
    ensures Keys([(key, value)] + done) == [key] + Keys(done)
    ensures Values([(key, value)] + done) == [value] + Values(done)
    ensures Flat([(key, value)] + done) == [key] + ([value] + Flat(done))
  {
    hide Interleave, Keys, Values, Flat;
    PairHalves(key, value, done);
    FlatIs([(key, value)] + done);
    FlatIs(done);
    var ks, vs := [key] + Keys(done), [value] + Values(done);
    InterleaveTail(ks, vs);
    assert ks[1..] == Keys(done) && vs[1..] == Values(done);
  }

  /** The units of the pairs show these words, in the order the in-place encoder needs. */
  ghost predicate PairsHeld(pairs: seq<(Unit, Unit)>, ks: seq<seq<u32>>, es: seq<seq<u32>>, before: seq<u32>,
                            view: seq<u32>) {
    && Held(Keys(pairs), ks, before, view) && Held(Values(pairs), es, before, view)
    && |before| <= |view| && InOrder(Flat(pairs), |view|, |before|)
  }

  /** The pairs from the last position to the first, each value before its key. */
  method EncodePairs(schema: Schema, hash: Hash, clock: Clock, kt: KeyType, vt: Type, ordered: seq<Key>, mv: MValue,
                     buffer: Buffer)
    returns (pairs: Option<array<(Unit, Unit)>>, ghost ks: seq<seq<u32>>, ghost es: seq<seq<u32>>)
    requires buffer.Valid() && mv.MMap?
    requires forall i :: 0 <= i < |ordered| ==>
               MatchesKey(kt, ordered[i]) && ordered[i] in mv.entries
                   && ValidValue(schema, hash, vt, mv.entries[ordered[i]])
    modifies buffer.Repr()
    ensures buffer.Valid() && fresh(buffer.Repr() - old(buffer.Repr()))
    ensures pairs.Some? ==>
              && fresh(pairs.value) && pairs.value !in buffer.Repr()
              && PairsHeld(pairs.value[..], ks, es, old(buffer.View()), buffer.View())
              && PairsKept(schema, hash, kt, vt, ordered, mv.entries, 0, ks, es)
    ensures (forall i :: 0 <= i < |ordered| ==> EntryAccepted(schema, hash, clock, vt, mv.entries, ordered[i])) ==>
        pairs.Some?
    decreases mv, 0, 0
  {
    hide Buffer.View, PairsHeld, PairsKept, MEncoded, ElementKept, Delivers, ValidValue, MatchesKey, EncodesKey,
         MAccepted;
    var n := |ordered|;
    var book := new (Unit, Unit)[n](_ => (EMPTY, EMPTY));
    ghost var before := buffer.View();
    ks, es := [], [];
    ghost var done: seq<(Unit, Unit)> := [];
    NoPairsHeld(before);
    NoPairsKept(schema, hash, kt, vt, ordered, mv.entries);
    var i := n;
    while i > 0
      invariant 0 <= i <= n && buffer.Valid() && fresh(buffer.Repr() - old(buffer.Repr())) && book !in buffer.Repr()
      invariant book[i..] == done && PairsHeld(done, ks, es, before, buffer.View())
      invariant PairsKept(schema, hash, kt, vt, ordered, mv.entries, i, ks, es)
    {
      i := i - 1;
      ghost var view := buffer.View();
      var value, key;
      ghost var e, k;
      value, e := EncodeM(schema, hash, clock, vt, mv.entries[ordered[i]], buffer);
      if value.None? {
        return None, ks, es;
      }
      ghost var view1 := buffer.View();
      key, k := EncodeKey(kt, ordered[i], buffer);
      if key.None? {
        return None, ks, es;
      }
      MParts(schema, hash, vt, mv.entries[ordered[i]], value.value, e, view, view1);
      PairHeld(done, ks, es, before, view, value.value, e, view1, key.value, k, buffer.View());
      PairsKeptStep(schema, hash, kt, vt, ordered, mv.entries, i + 1, ks, es, k, e);
      book[i] := (key.value, value.value);
      done := [(key.value, value.value)] + done;
      ks, es := [k] + ks, [e] + es;
      assert book[i..] == [book[i]] + book[i + 1..];
    }
    assert book[..] == done;
    pairs := Some(book);
  }

  ghost predicate EntryAccepted(schema: Schema, hash: Hash, clock: Clock, vt: Type, entries: map<Key, MValue>,
                                key: Key) {
    key in entries && (key.BytesKey? ==> |key.bytes| < MAX_LEN) && MAccepted(schema, hash, clock, vt, entries[key])
  }

  lemma NoPairsHeld(before: seq<u32>)
    ensures PairsHeld([], [], [], before, before)
  {
  }

  lemma PairHeld(done: seq<(Unit, Unit)>, ks: seq<seq<u32>>, es: seq<seq<u32>>, before: seq<u32>, view: seq<u32>,
                 value: Unit, e: seq<u32>, view1: seq<u32>, key: Unit, k: seq<u32>, view2: seq<u32>)
    requires PairsHeld(done, ks, es, before, view)
    requires Delivers(value, e, view, view1) && Delivers(key, k, view1, view2)
    ensures PairsHeld([(key, value)] + done, [k] + ks, [e] + es, before, view2)
  {
    hide Held, Delivers, InOrder, Keys, Values, Flat, Interleave;
    PairJoins(key, value, done);
    HeldOn(Keys(done), ks, before, view, value, e, view1);
    HeldStep(Keys(done), ks, before, view1, key, k, view2);
    HeldStep(Values(done), es, before, view, value, e, view1);
    HeldOn([value] + Values(done), [e] + es, before, view1, key, k, view2);
    InOrderStep(Flat(done), |before|, view, value, e, view1);
    InOrderStep([value] + Flat(done), |before|, view1, key, k, view2);
  }

  /** Lookup of any key of the key type agrees with the entries, whatever follows the map. */
  ghost predicate LooksUp(schema: Schema, hash: Hash, kt: KeyType, vt: Type, entries: map<Key, Value>,
                          words: seq<u32>) {
    forall suffix: seq<u32>, key: Key {:trigger FindValue(schema, vt, words + suffix, hash, key)} ::
        MatchesKey(kt, key) ==>
      FindValue(schema, vt, words + suffix, hash, key) == if key in entries then Some(entries[key]) else None
  }

  lemma FoundReads(schema: Schema, hash: Hash, kt: KeyType, vt: Type, v: Value, ordered: seq<Key>, cs: seq<seq<u32>>,
                   words: seq<u32>, p: nat)
    requires v.VMap? && EntriesConveyed(schema, hash, kt, vt, v, ordered, cs)
        && MapOver(hash, kt, vt, ordered, cs, words) && p < |ordered|
    ensures ordered[p] in v.entries && ReadField(schema, vt, MapCell(words, 2 * p + 1)) == Some(v.entries[ordered[p]])
  {
    hide Conveys, NewMap, MatchesKey, MapCell, StartsWith, ReadField, ReadKey, FindsKeys;
    assert ordered[p] in ordered && cs[p] == cs[p];
    ConveyedReads(schema, hash, vt, v.entries[ordered[p]], cs[p], MapCell(words, 2 * p + 1));
  }

  lemma ConveyedFinds(schema: Schema, hash: Hash, kt: KeyType, vt: Type, v: Value, core: seq<u32>, rest: seq<u32>,
                      key: Key)
    requires ConveysMap(schema, hash, kt, vt, v, core) && MatchesKey(kt, key)
    ensures FindValue(schema, vt, core + rest, hash, key) == if key in v.entries then Some(v.entries[key]) else None
  {
    hide Conveys, NewMap, MatchesKey, MapCell, StartsWith, ReadField, ReadKey, Find;
    var ordered, cs :| EntriesConveyed(schema, hash, kt, vt, v, ordered, cs)
      && forall suffix {:trigger core + suffix} :: MapOver(hash, kt, vt, ordered, cs, core + suffix);
    var words := core + rest;
    assert MapOver(hash, kt, vt, ordered, cs, words);
    var found := Find(NewMap(words).value, hash, key);
    if found.Some? { FoundReads(schema, hash, kt, vt, v, ordered, cs, words, found.value); }
  }

  /** Every map that words start with can be searched. */
  lemma FramedLooksUp(schema: Schema, hash: Hash, ty: Type, v: Value, words: seq<u32>)
    requires EntryType(schema, ty).Some? && Framed(schema, hash, ty, v, words)
    ensures v.VMap?
    ensures LooksUp(schema, hash, EntryType(schema, ty).value.0, EntryType(schema, ty).value.1, v.entries, words)
  {
    hide ConveysMap, FindValue, MatchesKey;
    var (kt, vt) := EntryType(schema, ty).value;
    var core := CoreIn(schema, hash, ty, v, words);
    ConveyedShape(schema, hash, ty, v, core);
    forall suffix: seq<u32>, key: Key | MatchesKey(kt, key)
      ensures FindValue(schema, vt, words + suffix, hash, key) == if key in v.entries then Some(v.entries[key])
          else None
    {
      ConveyedFinds(schema, hash, kt, vt, v, core, words[|core|..] + suffix, key);
      assert words + suffix == core + (words[|core|..] + suffix);
    }
  }

  /** MutableMap::encode_to_unit */
  method EncodeMapToUnit(schema: Schema, hash: Hash, clock: Clock, ty: Type, mv: MValue, buffer: Buffer)
    returns (unit: Option<Unit>, ghost words: seq<u32>)
    requires buffer.Valid() && ValidValue(schema, hash, ty, mv) && mv.MMap?
    modifies buffer.Repr()
    ensures buffer.Valid() && fresh(buffer.Repr() - old(buffer.Repr()))
    ensures EntryType(schema, ty).Some?
    ensures unit.Some? ==> MEncoded(schema, hash, ty, mv, unit.value, words, old(buffer.View()), buffer.View())
    ensures unit.Some? && !Overrun(schema, ty, mv, words) ==>
              LooksUp(schema, hash, EntryType(schema, ty).value.0, EntryType(schema, ty).value.1,
                  MRead(schema, ty, mv).entries, words)
    ensures MAccepted(schema, hash, clock, ty, mv) ==> unit.Some?
    decreases mv, 1
  {
    hide Buffer.View, MRead, MEncoded, Planned, LooksUp, Overrun, MAccepted, MWeight, IndexFails, AllMatch, FailsWith,
         ListsKeys, ValidValue;
    words := [];
    MapWeight(schema, hash, clock, ty, mv);
    var (kt, vt) := EntryType(schema, ty).value;
    if mv.entries == map[] {
      words := EMPTY_MAP;
      NoEntriesEncoded(schema, hash, ty, mv, buffer.View());
      return Some(InlineUnit(EMPTY_MAP)), words;
    }
    var plan;
    ghost var items, keyBytes, positions, time;
    plan, items, keyBytes, positions, time := PlanKeys(kt, mv.entries, hash, clock);
    if plan.None? {
      FailsAtTime(hash, clock, mv.entries, items, time);
      return None, words;
    }
    unit, words := EncodePlanned(schema, hash, clock, ty, mv, plan.value.0, plan.value.1, items, keyBytes, positions,
        buffer);
  }

  method EncodePlanned(schema: Schema, hash: Hash, clock: Clock, ty: Type, mv: MValue, index: seq<u8>,
                       ordered: seq<Key>, ghost items: seq<Key>, ghost keyBytes: seq<seq<u8>>,
                       ghost positions: seq<nat>, buffer: Buffer)
    returns (unit: Option<Unit>, ghost words: seq<u32>)
    requires buffer.Valid() && ValidValue(schema, hash, ty, mv) && mv.MMap? && mv.entries != map[]
        && EntryType(schema, ty).Some?
    requires Planned(EntryType(schema, ty).value.0, mv.entries, hash, index, ordered, items, keyBytes, positions)
    modifies buffer.Repr()
    ensures buffer.Valid() && fresh(buffer.Repr() - old(buffer.Repr()))
    ensures unit.Some? ==> MEncoded(schema, hash, ty, mv, unit.value, words, old(buffer.View()), buffer.View())
    ensures unit.Some? && !Overrun(schema, ty, mv, words) ==>
              LooksUp(schema, hash, EntryType(schema, ty).value.0, EntryType(schema, ty).value.1,
                  MRead(schema, ty, mv).entries, words)
    ensures MAccepted(schema, hash, clock, ty, mv) ==> unit.Some?
    decreases mv, 0, 1
  {
    hide Buffer.View, PairsKept, Overrun, MatchesKey, MRead, MFaithful, IndexFor, MapEncoded, MapFits, Held, InOrder,
         Flat, Keys, Values, LooksUp, C.Sizes, Planned, ListsKeys, ValidValue, Indexed, Delivers, MapWords, MAccepted,
         MWeight, EntryAccepted;
    words := [];
    var (kt, vt) := EntryType(schema, ty).value;
    PlanFacts(kt, mv.entries, hash, index, ordered, items, keyBytes, positions);
    EntryFacts(schema, hash, ty, mv, ordered);
    var last := buffer.Len();
    ghost var before := buffer.View();
    var pairs;
    ghost var ks, es;
    pairs, ks, es := EncodePairs(schema, hash, clock, kt, vt, ordered, mv, buffer);
    if pairs.None? {
      if MAccepted(schema, hash, clock, ty, mv) { AcceptedPairs(schema, hash, clock, ty, mv, ordered); }
      return None, words;
    }
    ghost var view, ps := buffer.View(), pairs.value[..];
    NotNothing(ordered, mv.entries);
    if MAccepted(schema, hash, clock, ty, mv) {
      PairsPass(schema, hash, clock, ty, mv, ordered, keyBytes, index, positions, ps, ks, es, before, view);
    }
    unit := SerializeMapPairsAtMut(index, pairs.value, buffer, last);
    PairCount(schema, hash, kt, vt, ordered, mv.entries, ps, ks, es, before, view);
    NotNothing(ordered, mv.entries);
    if unit.Some? {
      words := MapWords(index, ks, es);
      PairsFinished(hash, keyBytes, index, positions, ps, ks, es, before, view, unit.value, buffer.View());
      PairsWeight(schema, hash, ty, mv, ordered, keyBytes, index, positions, ks, es);
      if !Overrun(schema, ty, mv, words) {
        EntriesFaithful(schema, hash, ty, mv, items, keyBytes, index, positions, ordered, ks, es);
      }
    }
  }

  lemma MapWeight(schema: Schema, hash: Hash, clock: Clock, ty: Type, mv: MValue)
    requires ValidValue(schema, hash, ty, mv) && mv.MMap?
    ensures EntryType(schema, ty).Some?
    ensures var (kt, vt) := EntryType(schema, ty).value;
            && MWeight(schema, ty, mv) == 1 + IndexRoom(|mv.entries|) + SumOf(MEntryWeights(schema, vt, mv))
            && AllMatch(kt, mv.entries)
            && (MAccepted(schema, hash, clock, ty, mv) ==> !IndexFails(hash, clock, mv.entries))
  {
    hide IndexFails, MEntryWeights, MatchesKey, IndexRoom;
  }

  lemma AcceptedPairs(schema: Schema, hash: Hash, clock: Clock, ty: Type, mv: MValue, ordered: seq<Key>)
    requires mv.MMap? && EntryType(schema, ty).Some? && MAccepted(schema, hash, clock, ty, mv)
        && ListsKeys(ordered, mv.entries)
    ensures forall i :: 0 <= i < |ordered| ==>
              EntryAccepted(schema, hash, clock, EntryType(schema, ty).value.1, mv.entries, ordered[i])
  {
    hide IndexFails, IndexRoom;
    var vt := EntryType(schema, ty).value.1;
    forall i | 0 <= i < |ordered| ensures EntryAccepted(schema, hash, clock, vt, mv.entries, ordered[i]) {
      assert ordered[i] in ordered;
      SumCovers(MEntryWeights(schema, vt, mv), ordered[i]);
    }
  }

  lemma MPairsBounded(schema: Schema, hash: Hash, kt: KeyType, vt: Type, ordered: seq<Key>, mv: MValue,
                      ks: seq<seq<u32>>, es: seq<seq<u32>>)
    requires mv.MMap? && PairsKept(schema, hash, kt, vt, ordered, mv.entries, 0, ks, es)
        && ListsKeys(ordered, mv.entries)
    ensures PairsBounded(ordered, ks, es, MEntryWeights(schema, vt, mv))
  {
    hide Writes, Overrun, MWeight, EncodesKey;
    var m := MEntryWeights(schema, vt, mv);
    assert forall key :: key in m <==> key in mv.entries;
    forall i | 0 <= i < |ordered| ensures ordered[i] in m && |ks[i]| + |es[i]| + 2 <= m[ordered[i]] {
      assert EncodesKey(kt, ordered[0 + i], ks[i]);
      KeyWithin(kt, ordered[i], ks[i]);
      assert PairKept(schema, hash, vt, mv.entries, ordered[0 + i], es[i]);
    }
  }

  lemma PairsPass(schema: Schema, hash: Hash, clock: Clock, ty: Type, mv: MValue, ordered: seq<Key>,
                  keyBytes: seq<seq<u8>>, index: seq<u8>, positions: seq<nat>, pairs: seq<(Unit, Unit)>,
                  ks: seq<seq<u32>>, es: seq<seq<u32>>, before: seq<u32>, view: seq<u32>)
    requires ValidValue(schema, hash, ty, mv) && mv.MMap? && MAccepted(schema, hash, clock, ty, mv)
    requires ListsKeys(ordered, mv.entries) && |keyBytes| == |ordered| && IndexFor(hash, keyBytes, index, positions)
    requires EntryType(schema, ty).Some?
    requires PairsKept(schema, hash, EntryType(schema, ty).value.0, EntryType(schema, ty).value.1, ordered, mv.entries,
        0, ks, es)
    requires PairsHeld(pairs, ks, es, before, view)
    ensures MapFits(index, C.Sizes(Keys(pairs)), C.Sizes(Values(pairs)))
  {
    hide Cost, BestWidth, PairsKept, IndexFor, IndexRoom, MEntryWeights, PairsBounded, Keys, Values, Flat, InOrder,
         ListsKeys, ValidValue, MWellFormed;
    var (kt, vt) := EntryType(schema, ty).value;
    MapWeight(schema, hash, clock, ty, mv);
    MPairsBounded(schema, hash, kt, vt, ordered, mv, ks, es);
    PairsWithin(ordered, ks, es, MEntryWeights(schema, vt, mv));
    IndexIsRoom(hash, keyBytes, index, positions);
    DistinctCount(ordered, mv.entries);
    C.SizesAreLens(Keys(pairs), view);
    C.SizesAreLens(Values(pairs), view);
  }

  lemma PairsWeight(schema: Schema, hash: Hash, ty: Type, mv: MValue, ordered: seq<Key>, keyBytes: seq<seq<u8>>,
                    index: seq<u8>, positions: seq<nat>, ks: seq<seq<u32>>, es: seq<seq<u32>>)
    requires ValidValue(schema, hash, ty, mv) && mv.MMap? && EntryType(schema, ty).Some?
    requires ListsKeys(ordered, mv.entries) && |keyBytes| == |ordered| && IndexFor(hash, keyBytes, index, positions)
    requires PairsKept(schema, hash, EntryType(schema, ty).value.0, EntryType(schema, ty).value.1, ordered, mv.entries,
        0, ks, es)
    ensures |index| >= 4 && |ks| == |es| && |MapWords(index, ks, es)| <= MWeight(schema, ty, mv)
  {
    hide Cost, BestWidth, PairsKept, IndexRoom, MEntryWeights, PairsBounded, ListsKeys, ValidValue, WordSize;
    var (kt, vt) := EntryType(schema, ty).value;
    MPairsBounded(schema, hash, kt, vt, ordered, mv, ks, es);
    PairsWithin(ordered, ks, es, MEntryWeights(schema, vt, mv));
    BoundedCount(ordered, ks, es, MEntryWeights(schema, vt, mv));
    IndexIsRoom(hash, keyBytes, index, positions);
    DistinctCount(ordered, mv.entries);
  }

  lemma EntryFacts(schema: Schema, hash: Hash, ty: Type, mv: MValue, keys: seq<Key>)
    requires ValidValue(schema, hash, ty, mv) && mv.MMap? && ListsKeys(keys, mv.entries)
    ensures var (kt, vt) := EntryType(schema, ty).value;
            forall i :: 0 <= i < |keys| ==>
                MatchesKey(kt, keys[i]) && keys[i] in mv.entries && ValidValue(schema, hash, vt, mv.entries[keys[i]])
  {
  }

  lemma PairCount(schema: Schema, hash: Hash, kt: KeyType, vt: Type, ordered: seq<Key>, entries: map<Key, MValue>,
                  pairs: seq<(Unit, Unit)>, ks: seq<seq<u32>>, es: seq<seq<u32>>, before: seq<u32>, view: seq<u32>)
    requires PairsKept(schema, hash, kt, vt, ordered, entries, 0, ks, es) && Held(Keys(pairs), ks, before, view)
    ensures |pairs| == |ks| == |ordered| == |es|
  {
  }

  lemma PairsFinished(hash: Hash, keyBytes: seq<seq<u8>>, index: seq<u8>, positions: seq<nat>, pairs: seq<(Unit, Unit)>,
                      ks: seq<seq<u32>>, es: seq<seq<u32>>, before: seq<u32>, view: seq<u32>, unit: Unit,
                      after: seq<u32>)
    requires Held(Keys(pairs), ks, before, view) && Held(Values(pairs), es, before, view) && pairs != []
    requires |keyBytes| == |pairs| && IndexFor(hash, keyBytes, index, positions)
    requires MapEncoded(index, Keys(pairs), Values(pairs), view, |before|, unit, after)
    requires MapFits(index, C.Sizes(Keys(pairs)), C.Sizes(Values(pairs)))
    ensures Indexed(hash, keyBytes, index, positions, ks, es)
    ensures Delivers(unit, MapWords(index, ks, es), before, after)
  {
    hide Cost, BestWidth, MapWords, IndexFor;
    C.SizesAreLens(Keys(pairs), view);
    C.SizesAreLens(Values(pairs), view);
    assert MapWords(index, ks, es) != [] by { MapTag(hash, keyBytes, index, positions, ks, es); }
  }

  lemma NoEntriesFaithful(schema: Schema, hash: Hash, ty: Type, mv: MValue)
    requires mv == MMap(map[]) && EntryType(schema, ty).Some?
    ensures MFaithful(schema, hash, ty, mv, EMPTY_MAP)
    ensures LooksUp(schema, hash, EntryType(schema, ty).value.0, EntryType(schema, ty).value.1,
        MRead(schema, ty, mv).entries, EMPTY_MAP)
  {
    hide Conveys, LooksUp;
    assert MRead(schema, ty, mv).entries == map[];
    ShapeEncodes(schema, hash, ty, VMap(map[]), EMPTY_MAP);
    EncodingWrites(schema, hash, ty, VMap(map[]), EMPTY_MAP);
    FramedLooksUp(schema, hash, ty, VMap(map[]), EMPTY_MAP);
  }

  lemma NoEntriesEncoded(schema: Schema, hash: Hash, ty: Type, mv: MValue, view: seq<u32>)
    requires mv == MMap(map[]) && EntryType(schema, ty).Some? && 1 <= MWeight(schema, ty, mv)
    ensures MEncoded(schema, hash, ty, mv, InlineUnit(EMPTY_MAP), EMPTY_MAP, view, view)
    ensures LooksUp(schema, hash, EntryType(schema, ty).value.0, EntryType(schema, ty).value.1,
        MRead(schema, ty, mv).entries, EMPTY_MAP)
  {
    hide MFaithful, LooksUp, Overrun, MRead, MWeight;
    NoEntriesFaithful(schema, hash, ty, mv);
  }

  /** The encoded pairs are the entries of the value the map reads as. */
  lemma EntriesKept(schema: Schema, hash: Hash, ty: Type, kt: KeyType, vt: Type, mv: MValue, ordered: seq<Key>,
                    ks: seq<seq<u32>>, es: seq<seq<u32>>)
    requires mv.MMap? && EntryType(schema, ty) == Some((kt, vt)) && ListsKeys(ordered, mv.entries)
    requires |es| == |ordered| && forall i {:trigger es[i]} :: 0 <= i < |es| ==>
               ordered[i] in mv.entries && !Overrun(schema, vt, mv.entries[ordered[i]], es[i])
    requires PairsKept(schema, hash, kt, vt, ordered, mv.entries, 0, ks, es)
    ensures EncodesKeys(kt, ordered, ks)
    ensures var v := MRead(schema, ty, mv);
            && v.VMap? && ListsKeys(ordered, v.entries)
            && AllFramed(schema, hash, vt, ValuesOf(v, ordered), es)
            && (Canonical(schema, hash, ty, mv) ==> EntriesOf(schema, hash, vt, v, ordered, es))
            && (Tight(schema, ty, mv) ==> AllConveyed(schema, hash, vt, ValuesOf(v, ordered), es))
  {
    hide Framed, Conveys, EncodingOf, EncodesKey, MRead;
    MapIs(schema, ty, kt, vt, mv);
    var v := MRead(schema, ty, mv);
    assert forall key :: key in v.entries <==> key in mv.entries;
    var vs := ValuesOf(v, ordered);
    forall i | 0 <= i < |es|
      ensures Framed(schema, hash, vt, vs[i], es[i]) && EncodesKey(kt, ordered[i], ks[i])
      ensures Tight(schema, ty, mv) ==> Conveys(schema, hash, vt, vs[i], es[i])
      ensures Canonical(schema, hash, ty, mv) ==> EncodingOf(schema, hash, vt, vs[i], es[i])
    {
      assert PairKept(schema, hash, vt, mv.entries, ordered[0 + i], es[i]);
      assert ks[i] == ks[i] && ordered[0 + i] == ordered[i];
    }
  }

  lemma PairsCounted(schema: Schema, hash: Hash, kt: KeyType, vt: Type, ordered: seq<Key>, entries: map<Key, MValue>,
                     ks: seq<seq<u32>>, es: seq<seq<u32>>)
    requires PairsKept(schema, hash, kt, vt, ordered, entries, 0, ks, es)
    ensures |ks| == |es| == |ordered|
  {
  }

  /** The map reads as its entries, and so does every lookup. */
  lemma EntriesFaithful(schema: Schema, hash: Hash, ty: Type, mv: MValue, items: seq<Key>, keyBytes: seq<seq<u8>>,
                        index: seq<u8>, positions: seq<nat>, ordered: seq<Key>, ks: seq<seq<u32>>, es: seq<seq<u32>>)
    requires mv.MMap? && mv.entries != map[] && EntryType(schema, ty).Some?
    requires Planned(EntryType(schema, ty).value.0, mv.entries, hash, index, ordered, items, keyBytes, positions)
    requires PairsKept(schema, hash, EntryType(schema, ty).value.0, EntryType(schema, ty).value.1, ordered, mv.entries,
        0, ks, es)
    requires Indexed(hash, keyBytes, index, positions, ks, es) && !Overrun(schema, ty, mv, MapWords(index, ks, es))
    ensures MFaithful(schema, hash, ty, mv, MapWords(index, ks, es))
    ensures LooksUp(schema, hash, EntryType(schema, ty).value.0, EntryType(schema, ty).value.1,
        MRead(schema, ty, mv).entries, MapWords(index, ks, es))
  {
    hide MapWords, IndexFor, MapSized, MatchesKey, Arranged, PairsKept, LooksUp, MRead, Framed, Conveys, EncodingOf,
         EntriesOf, Canonical, EncodesKeys, AllFramed, AllConveyed, Tight;
    var (kt, vt) := EntryType(schema, ty).value;
    PairsCounted(schema, hash, kt, vt, ordered, mv.entries, ks, es);
    EntriesSound(schema, ty, mv, index, ordered, ks, es);
    EntriesKept(schema, hash, ty, kt, vt, mv, ordered, ks, es);
    NotNothing(ordered, mv.entries);
    var l := MapLayout(items, ordered, ks, es, keyBytes, index, positions);
    MapFramed(schema, hash, ty, kt, vt, MRead(schema, ty, mv), l);
    if Canonical(schema, hash, ty, mv) { MapIsEncoding(schema, hash, ty, kt, vt, MRead(schema, ty, mv), l); }
    FramedLooksUp(schema, hash, ty, MRead(schema, ty, mv), MapWords(index, ks, es));
  }

  lemma MapIsEncoding(schema: Schema, hash: Hash, ty: Type, kt: KeyType, vt: Type, v: Value, l: MapLayout)
    requires EntryType(schema, ty) == Some((kt, vt)) && v.VMap? && ListsKeys(l.ordered, v.entries)
        && Planted(l, hash, kt) && l.ordered != []
    requires EntriesOf(schema, hash, vt, v, l.ordered, l.es)
    ensures |l.index| >= 4 && |l.ks| == |l.es|
    ensures EncodingOf(schema, hash, ty, v, MapWords(l.index, l.ks, l.es))
  {
    hide EncodingOf, MapWords, IndexFor, MapSized, EncodesKey, Arranged;
    MapFormat(schema, hash, kt, vt, v, l);
    ShapeEncodes(schema, hash, ty, v, MapWords(l.index, l.ks, l.es));
    ShapeEncodes(schema, hash, Map(kt, vt), v, MapWords(l.index, l.ks, l.es));
  }

  lemma NotNothing(keys: seq<Key>, entries: map<Key, MValue>)
    requires ListsKeys(keys, entries) && entries != map[]
    ensures keys != []
  {
    var key :| key in entries;
  }
}
