/** Whole sessions with a mutable message: decoded from encoded words, changed by any run of accessor
    calls and assignments, and serialized. The result reads as an eager record that was changed by the
    same run, and can be decoded again. */
module MessageRuns {
  import opened Bits
  import opened Wrappers
  import opened Strings
  import opened Buffers
  import opened PerfectHash
  import opened Views
  import opened Messages
  import opened Records
  import opened Schemas
  import opened TreeReading
  import opened WireFormat
  import opened MapKeys
  import opened AccessSets
  import opened Cores
  import opened Conveying
  import opened MutableValues
  import opened Overruns
  import opened MutableEncoder
  import opened Decoding
  import opened LazyMessages

  // ----- the eager record

  /** Plain fields, and the ids accessed so far. */
  datatype Eager = Eager(fields: map<nat, Value>, seen: set<nat>)

  /** A default, or a sub-message whose source is a single word: reading it leaves it out. */
  ghost predicate Drops(schema: Schema, slots: seq<Slot>, words: seq<u32>, id: nat) {
    && Live(slots, id) && FieldIn(words, id).Some?
    && var v := ReadSlot(schema, slots, words, id);
       && v.Some?
       && (DefaultValue(v.value)
           || (RecordSlots(schema, slots[id].ty).Some? && FieldIn(words, id).value.ObjectWords().Some?
               && |FieldIn(words, id).value.ObjectWords().value| == 1))
  }

  function PutField(fields: map<nat, Value>, id: nat, v: Option<Value>): map<nat, Value> {
    match v
    case None => fields - {id}
    case Some(value) => fields[id := value]
  }

  ghost function EagerStep(schema: Schema, slots: seq<Slot>, words: seq<u32>, e: Eager, op: Op): Eager
    requires Allowed(slots, op)
  {
    match op
    case Get(id) =>
      Eager(if id !in e.seen && Drops(schema, slots, words, id) then e.fields - {id} else e.fields, e.seen + {id})
    case Set(id, value) => Eager(PutField(e.fields, id, SlotMeaning(schema, slots[id].ty, value)), e.seen + {id})
  }

  ghost function RunEager(schema: Schema, slots: seq<Slot>, words: seq<u32>, e: Eager, ops: seq<Op>): Eager
    requires forall i :: 0 <= i < |ops| ==> Allowed(slots, ops[i])
    decreases |ops|
  {
    if ops == [] then e else RunEager(schema, slots, words, EagerStep(schema, slots, words, e, ops[0]), ops[1..])
  }

  // ----- the lazy message refines it

  ghost predicate SameField(schema: Schema, slots: seq<Slot>, st: State, e: Eager, id: nat)
    requires Live(slots, id)
  {
    && FieldMeaning(schema, slots, st, id) == (if id in e.fields then Some(e.fields[id]) else None)
    && (Has(st.accessed, id) <==> id in e.seen)
    && (id in e.seen ==> Settled(slots, st, id))
  }

  ghost predicate Mirrors(schema: Schema, slots: seq<Slot>, words: seq<u32>, st: State, e: Eager) {
    && st.words == Some(words) && |st.accessed| == WordsFor(LiveCount(slots))
    && (forall id :: id in e.fields ==> Live(slots, id))
    && forall id: nat :: Live(slots, id) ==> SameField(schema, slots, st, e, id)
  }

  lemma FieldAt(schema: Schema, slots: seq<Slot>, words: seq<u32>, st: State, e: Eager, id: nat)
    requires Mirrors(schema, slots, words, st, e) && Live(slots, id)
    ensures SameField(schema, slots, st, e, id)
  {
    hide SameField;
  }

  /** Another field keeps its meaning. */
  lemma OtherField(schema: Schema, slots: seq<Slot>, st: State, op: Op, id: nat)
    requires Allowed(slots, op) && Live(slots, id) && id != op.id && |st.accessed| == WordsFor(LiveCount(slots))
    ensures var next := Step(schema, slots, st, op);
            && FieldMeaning(schema, slots, next, id) == FieldMeaning(schema, slots, st, id)
            && (Has(next.accessed, id) <==> Has(st.accessed, id))
            && (Settled(slots, st, id) ==> Settled(slots, next, id))
  {
    hide Has, Step, SlotMeaning;
    StepAccess(schema, slots, st, op, id);
  }

  /** The field read or stored: a second read changes nothing, a first one leaves defaults out. */
  lemma OwnField(schema: Schema, hash: Hash, name: Name, words: seq<u32>, st: State, e: Eager, op: Op)
    requires ValidState(schema, hash, name, st) && WellTyped(schema, hash, schema[name].slots, op)
    requires Mirrors(schema, schema[name].slots, words, st, e)
    ensures SameField(schema, schema[name].slots, Step(schema, schema[name].slots, st, op),
                      EagerStep(schema, schema[name].slots, words, e, op), op.id)
  {
    hide Has, Step, SlotMeaning, FieldMeaning, Drops, ValidState, Mirrors;
    ValidLength(schema, hash, name, st);
    var slots, id := schema[name].slots, op.id;
    FieldAt(schema, slots, words, st, e, id);
    StepAccess(schema, slots, st, op, id);
    SettledAfter(schema, slots, st, op);
    AccessedIs(schema, slots, Step(schema, slots, st, op), id);
    match op {
      case Set(_, value) => StoresValue(schema, slots, st, op);
      case Get(_) =>
        if id in e.seen {
          SettledKept(schema, slots, st, id);
          AccessedIs(schema, slots, st, id);
        } else {
          SourceOf(schema, slots, words, st, e);
          FirstReadDrops(schema, hash, name, words, st, id);
        }
    }
  }

  lemma ValidLength(schema: Schema, hash: Hash, name: Name, st: State)
    requires ValidState(schema, hash, name, st)
    ensures name in schema && schema[name].Record? && |st.accessed| == WordsFor(LiveCount(schema[name].slots))
  {
  }

  lemma SourceOf(schema: Schema, slots: seq<Slot>, words: seq<u32>, st: State, e: Eager)
    requires Mirrors(schema, slots, words, st, e)
    ensures st.words == Some(words)
  {
  }

  lemma SettledAfter(schema: Schema, slots: seq<Slot>, st: State, op: Op)
    requires Allowed(slots, op) && |st.accessed| == WordsFor(LiveCount(slots))
    ensures Settled(slots, Step(schema, slots, st, op), op.id)
  {
    hide Has;
    StepAccess(schema, slots, st, op, op.id);
  }

  lemma SettledKept(schema: Schema, slots: seq<Slot>, st: State, id: nat)
    requires Live(slots, id) && Settled(slots, st, id) && |st.accessed| == WordsFor(LiveCount(slots))
    ensures Step(schema, slots, st, Get(id)).slots == st.slots
  {
    hide Has;
  }

  lemma FirstReadDrops(schema: Schema, hash: Hash, name: Name, words: seq<u32>, st: State, id: nat)
    requires ValidState(schema, hash, name, st) && Live(schema[name].slots, id) && !Has(st.accessed, id)
    requires schema[name].slots[id].ty.Message? ==> schema[name].slots[id].ty.name in schema
    requires st.words == Some(words)
    ensures |st.accessed| == WordsFor(LiveCount(schema[name].slots))
    ensures var slots := schema[name].slots;
            FieldMeaning(schema, slots, Step(schema, slots, st, Get(id)), id)
              == if Drops(schema, slots, words, id) then None else FieldMeaning(schema, slots, st, id)
  {
    hide Has, Step, SlotMeaning, FieldIn, ReadField, FirstSlot, Stands, Omits, DecodeList, DecodeMap, StringBytes;
    var slots := schema[name].slots;
    FirstAccessRead(schema, hash, name, st, id);
    FirstSlotRead(schema, hash, name, st, id);
    if FirstSlot(schema, slots, st, id).Some? { OneWordSource(schema, slots, st, id); }
  }

  lemma DecodesMessage(schema: Schema, ty: Type, words: seq<u32>)
    requires RecordSlots(schema, ty).Some?
    ensures DecodeObject(schema, ty, words)
              == if IsMessage(words) then Some(MMessage(FreshState(RecordSlots(schema, ty).value, Some(words))))
                  else None
  {
    assert ItemType(schema, ty).None? && EntryType(schema, ty).None?;
  }

  /** A decoded sub-message is left out exactly when its words are a single one. */
  lemma OneWordSource(schema: Schema, slots: seq<Slot>, st: State, id: nat)
    requires Live(slots, id) && FirstSlot(schema, slots, st, id).Some?
    ensures st.words.Some? && FieldIn(st.words.value, id).Some?
    ensures var field := FieldIn(st.words.value, id).value;
            Omits(schema, slots[id].ty, FirstSlot(schema, slots, st, id).value) <==>
            RecordSlots(schema, slots[id].ty).Some? && field.ObjectWords().Some? && |field.ObjectWords().value| == 1
  {
    hide FieldIn, DecodeObject, FieldMeaning;
    var ty := slots[id].ty;
    if RecordSlots(schema, ty).Some? {
      var inner, words := RecordSlots(schema, ty).value, FieldIn(st.words.value, id).value.ObjectWords().value;
      NothingAccessed(WordsFor(LiveCount(inner)));
      DecodesMessage(schema, ty, words);
      assert FirstSlot(schema, slots, st, id) == Some(MMessage(FreshState(inner, Some(words))));
      assert Omits(schema, ty, MMessage(FreshState(inner, Some(words)))) <==>
          IsOneWord(schema, inner, FreshState(inner, Some(words)));
    }
  }

  lemma StepMirrors(schema: Schema, hash: Hash, name: Name, words: seq<u32>, st: State, e: Eager, op: Op)
    requires ValidState(schema, hash, name, st) && WellTyped(schema, hash, schema[name].slots, op)
    requires Mirrors(schema, schema[name].slots, words, st, e)
    ensures |st.accessed| == WordsFor(LiveCount(schema[name].slots))
    ensures Mirrors(schema, schema[name].slots, words, Step(schema, schema[name].slots, st, op),
                    EagerStep(schema, schema[name].slots, words, e, op))
  {
    hide Has, Step, SlotMeaning, FieldMeaning, Drops, ValidState, Settled;
    ValidLength(schema, hash, name, st);
    var slots := schema[name].slots;
    var next, e' := Step(schema, slots, st, op), EagerStep(schema, slots, words, e, op);
    StepLength(schema, slots, st, op);
    StepAccess(schema, slots, st, op, op.id);
    forall id: nat | Live(slots, id) ensures SameField(schema, slots, next, e', id) {
      FieldAt(schema, slots, words, st, e, id);
      if id == op.id {
        OwnField(schema, hash, name, words, st, e, op);
      } else {
        OtherField(schema, slots, st, op, id);
      }
    }
  }

  lemma {:induction false} RunMirrors(schema: Schema, hash: Hash, name: Name, words: seq<u32>, st: State, e: Eager,
                                      ops: seq<Op>)
    requires ValidState(schema, hash, name, st) && Mirrors(schema, schema[name].slots, words, st, e)
    requires forall i :: 0 <= i < |ops| ==>
        Allowed(schema[name].slots, ops[i]) && WellTyped(schema, hash, schema[name].slots, ops[i])
    ensures |st.accessed| == WordsFor(LiveCount(schema[name].slots))
    ensures var final := RunFrom(schema, schema[name].slots, st, ops);
            && ValidState(schema, hash, name, final)
            && Mirrors(schema, schema[name].slots, words, final, RunEager(schema, schema[name].slots, words, e, ops))
    decreases |ops|
  {
    hide ValidState, Mirrors, Step, EagerStep, WellTyped;
    ValidLength(schema, hash, name, st);
    if ops != [] {
      StepMirrors(schema, hash, name, words, st, e, ops[0]);
      StepValid(schema, hash, name, st, ops[0]);
      RunMirrors(schema, hash, name, words, Step(schema, schema[name].slots, st, ops[0]),
                 EagerStep(schema, schema[name].slots, words, e, ops[0]), ops[1..]);
    }
  }

  lemma FreshMirrors(schema: Schema, hash: Hash, name: Name, v: Value, words: seq<u32>)
    requires name in schema && schema[name].Record? && Framed(schema, hash, Message(name), v, words)
    ensures v.VRecord? && ValidState(schema, hash, name, FreshState(schema[name].slots, Some(words)))
    ensures Mirrors(schema, schema[name].slots, words, FreshState(schema[name].slots, Some(words)), Eager(v.fields, {}))
  {
    hide Conveys, FieldIn, ReadField, StartsWith, FieldsConveyed, RecordOver, Has, Settled;
    var slots := schema[name].slots;
    var st := FreshState(slots, Some(words));
    FreshIsValid(schema, hash, name, Some(words));
    var core := CoreIn(schema, hash, Message(name), v, words);
    ConveyedShape(schema, hash, Message(name), v, core);
    ConveyedFieldsLive(schema, hash, name, v, core);
    assert words == core + words[|core|..];
    forall id: nat | Live(slots, id) ensures SameField(schema, slots, st, Eager(v.fields, {}), id) {
      var c := SourceField(schema, hash, name, v, core, words[|core|..], id);
      NothingSet(WordsFor(LiveCount(slots)), id);
      UnreadField(schema, slots, st, id);
    }
  }

  lemma UnreadField(schema: Schema, slots: seq<Slot>, st: State, id: nat)
    requires Live(slots, id) && !Has(st.accessed, id)
    ensures FieldMeaning(schema, slots, st, id) == SourceMeaning(schema, slots, st.words, id)
  {
  }

  /** Over every run from a source, the message means what the eager record holds. */
  lemma RunRefines(schema: Schema, hash: Hash, name: Name, v: Value, words: seq<u32>, ops: seq<Op>)
    requires name in schema && schema[name].Record? && Framed(schema, hash, Message(name), v, words)
    requires forall i :: 0 <= i < |ops| ==>
        Allowed(schema[name].slots, ops[i]) && WellTyped(schema, hash, schema[name].slots, ops[i])
    ensures v.VRecord?
    ensures var slots := schema[name].slots;
            var final := RunFrom(schema, slots, FreshState(slots, Some(words)), ops);
            && ValidState(schema, hash, name, final)
            && StateFields(schema, slots, final) == RunEager(schema, slots, words, Eager(v.fields, {}), ops).fields
  {
    hide ValidState, RunFrom, RunEager, WellTyped, FieldMeaning, Framed;
    var slots := schema[name].slots;
    FreshMirrors(schema, hash, name, v, words);
    var st := FreshState(slots, Some(words));
    RunMirrors(schema, hash, name, words, st, Eager(v.fields, {}), ops);
    MirrorsFields(schema, slots, words, RunFrom(schema, slots, st, ops),
        RunEager(schema, slots, words, Eager(v.fields, {}), ops));
  }

  lemma MirrorsFields(schema: Schema, slots: seq<Slot>, words: seq<u32>, st: State, e: Eager)
    requires Mirrors(schema, slots, words, st, e)
    ensures StateFields(schema, slots, st) == e.fields
  {
    hide FieldMeaning, Has, Settled;
    forall id: nat | Live(slots, id)
        ensures SameField(schema, slots, st, e, id) { FieldAt(schema, slots, words, st, e, id); }
    assert StateFields(schema, slots, st) == e.fields;
  }

  // ----- serializing

  /** What a serialized message holds: in any place it reads as the eager record, what detection finds
      reads the same, and it is a source to decode again. Detection finds all of it exactly when it
      conveys the record itself, as it does when every message copied is tight. */
  lemma SerializedReads(schema: Schema, hash: Hash, name: Name, st: State, words: seq<u32>, suffix: seq<u32>)
    requires name in schema && schema[name].Record? && MFaithful(schema, hash, Message(name), MMessage(st), words)
    ensures var ty, v := Message(name), VRecord(StateFields(schema, schema[name].slots, st));
            && ReadObject(schema, ty, words + suffix) == Some(v)
            && SourceOk(schema, hash, name, words + suffix)
            && var end := DetectObject(schema, ty, words + suffix);
               && end.Some? && end.value <= |words|
               && Conveys(schema, hash, ty, v, words[..end.value])
               && (end.value == |words| <==> Conveys(schema, hash, ty, v, words))
               && (Tight(schema, ty, MMessage(st)) ==> end.value == |words|)
               && (Canonical(schema, hash, ty, MMessage(st)) ==> EncodingOf(schema, hash, ty, v, words))
  {
    hide ReadObject, DetectObject, Conveys, Framed, EncodingOf, StateFields, MRead, Tight, Canonical, Omits;
    MessageIs(schema, name, st);
    var v := VRecord(StateFields(schema, schema[name].slots, st));
    DetectedPrefix(schema, hash, Message(name), v, words, suffix);
    FramedMore(schema, hash, Message(name), v, words, suffix);
  }

  /** Every field of the schema shows the value stored last, or what it showed before. */
  ghost predicate ShowsRun(schema: Schema, slots: seq<Slot>, before: map<nat, Value>, ops: seq<Op>,
                           after: map<nat, Value>) {
    forall id: nat :: id < |slots| && slots[id].Field? && !slots[id].deprecated ==>
      Shown(schema, slots[id].ty, FieldOf(after, id))
        == ShownAfter(schema, slots[id].ty, Shown(schema, slots[id].ty, FieldOf(before, id)), ops, id)
  }

  lemma RunShows(schema: Schema, hash: Hash, name: Name, v: Value, words: seq<u32>, ops: seq<Op>)
    requires name in schema && schema[name].Record? && Framed(schema, hash, Message(name), v, words)
    requires forall i :: 0 <= i < |ops| ==>
        Allowed(schema[name].slots, ops[i]) && WellTyped(schema, hash, schema[name].slots, ops[i])
    ensures v.VRecord?
    ensures ShowsRun(schema, schema[name].slots, v.fields, ops,
                     RunEager(schema, schema[name].slots, words, Eager(v.fields, {}), ops).fields)
  {
    hide ValidState, RunFrom, RunEager, WellTyped, FieldMeaning, Framed, Shown, ShownAfter, Mirrors;
    var slots := schema[name].slots;
    var st := FreshState(slots, Some(words));
    RunRefines(schema, hash, name, v, words, ops);
    FreshMirrors(schema, hash, name, v, words);
    MirrorsFields(schema, slots, words, st, Eager(v.fields, {}));
    forall id: nat | Live(slots, id)
      ensures Shown(schema, slots[id].ty,
                    FieldOf(RunEager(schema, slots, words, Eager(v.fields, {}), ops).fields, id))
        == ShownAfter(schema, slots[id].ty, Shown(schema, slots[id].ty, FieldOf(v.fields, id)), ops, id)
    {
      RunShown(schema, hash, name, st, ops, id);
      FieldIs(schema, slots, st, id);
      FieldIs(schema, slots, RunFrom(schema, slots, st, ops), id);
    }
  }

  lemma FieldIs(schema: Schema, slots: seq<Slot>, st: State, id: nat)
    requires Live(slots, id)
    ensures FieldOf(StateFields(schema, slots, st), id) == FieldMeaning(schema, slots, st, id)
  {
    hide FieldMeaning;
  }

  /** Decode, run, serialize: the words read as the record changed eagerly by the same run, and can be
      decoded again; without any access they are the source. */
  method EditMessage(schema: Schema, name: Name, source: seq<u32>, ops: seq<Op>, hash: Hash, clock: Clock,
                     buffer: Buffer, ghost v: Value)
    returns (unit: Option<Unit>, ghost encoded: seq<u32>, ghost final: State)
    requires name in schema && schema[name].Record? && Framed(schema, hash, Message(name), v, source) && buffer.Valid()
    requires forall i :: 0 <= i < |ops| ==>
        Allowed(schema[name].slots, ops[i]) && WellTyped(schema, hash, schema[name].slots, ops[i])
    modifies buffer.Repr()
    ensures buffer.Valid() && v.VRecord?
    ensures final == RunFrom(schema, schema[name].slots, FreshState(schema[name].slots, Some(source)), ops)
    ensures unit.Some? ==> Delivers(unit.value, encoded, old(buffer.View()), buffer.View())
    ensures ops == [] ==> unit.Some? && encoded == source
    ensures MAccepted(schema, hash, clock, Message(name), MMessage(final)) ==> unit.Some?
    ensures ShowsRun(schema, schema[name].slots, v.fields, ops,
                     RunEager(schema, schema[name].slots, source, Eager(v.fields, {}), ops).fields)
    ensures unit.Some? && !Overrun(schema, Message(name), MMessage(final), encoded) ==>
              && (forall suffix {:trigger encoded + suffix} :: ReadObject(schema, Message(name), encoded + suffix)
                    == Some(VRecord(RunEager(schema, schema[name].slots, source, Eager(v.fields, {}), ops).fields)))
              && (forall suffix {:trigger encoded + suffix} :: SourceOk(schema, hash, name, encoded + suffix))
              && (Tight(schema, Message(name), MMessage(final)) ==> Extends(schema, Message(name), encoded))
              && (Canonical(schema, hash, Message(name), MMessage(final)) ==>
                    EncodingOf(schema, hash, Message(name),
                               VRecord(RunEager(schema, schema[name].slots, source, Eager(v.fields, {}), ops).fields),
                               encoded))
  {
    hide ReadObject, DetectObject, Conveys, StateFields, MRead, Tight, Canonical, EncodingOf, Omits, Buffer.View,
         RunFrom, RunEager, MAccepted, ValidState, WellTyped, Overrun, Delivers, MFaithful, Framed, ShowsRun, StateLeft;
    SourceOfFramed(schema, hash, name, v, source);
    var message := new MutableMessage.FromWords(schema, name, source, hash);
    message.Run(ops, hash);
    final := message.Now();
    RunRefines(schema, hash, name, v, source, ops);
    RunShows(schema, hash, name, v, source, ops);
    unit, encoded := message.EncodeToUnit(hash, clock, buffer);
    if ops == [] { FreshClean(schema, name, source); }
    if unit.Some? && !Overrun(schema, Message(name), MMessage(final), encoded) {
      SerializedReads(schema, hash, name, final, encoded, []);
      forall suffix
        ensures ReadObject(schema, Message(name), encoded + suffix)
            == Some(VRecord(StateFields(schema, schema[name].slots, final)))
        ensures SourceOk(schema, hash, name, encoded + suffix)
        ensures Tight(schema, Message(name), MMessage(final)) ==>
            DetectObject(schema, Message(name), encoded + suffix) == Some(|encoded|)
      {
        SerializedReads(schema, hash, name, final, encoded, suffix);
      }
    }
  }

  lemma SourceOfFramed(schema: Schema, hash: Hash, name: Name, v: Value, words: seq<u32>)
    requires Framed(schema, hash, Message(name), v, words)
    ensures SourceOk(schema, hash, name, words)
  {
    hide Framed;
  }

  lemma FreshClean(schema: Schema, name: Name, words: seq<u32>)
    requires name in schema && schema[name].Record?
    ensures RunFrom(schema, schema[name].slots, FreshState(schema[name].slots, Some(words)), [])
        == FreshState(schema[name].slots, Some(words))
    ensures IsClean(FreshState(schema[name].slots, Some(words)))
  {
    NothingAccessed(WordsFor(LiveCount(schema[name].slots)));
  }

  // ----- messages built from nothing

  lemma {:induction false} RunUnsourced(schema: Schema, slots: seq<Slot>, st: State, ops: seq<Op>)
    requires (forall i :: 0 <= i < |ops| ==> Allowed(slots, ops[i])) && |st.accessed| == WordsFor(LiveCount(slots))
    requires Unsourced(MMessage(st)) && forall i :: 0 <= i < |ops| && ops[i].Set? ==> Unsourced(ops[i].value)
    ensures Unsourced(MMessage(RunFrom(schema, slots, st, ops)))
    decreases |ops|
  {
    hide Step;
    if ops != [] {
      StepLength(schema, slots, st, ops[0]);
      StepUnsourced(schema, slots, st, ops[0]);
      RunUnsourced(schema, slots, Step(schema, slots, st, ops[0]), ops[1..]);
    }
  }

  lemma StepUnsourced(schema: Schema, slots: seq<Slot>, st: State, op: Op)
    requires Allowed(slots, op) && |st.accessed| == WordsFor(LiveCount(slots))
    requires Unsourced(MMessage(st)) && (op.Set? ==> Unsourced(op.value))
    ensures Unsourced(MMessage(Step(schema, slots, st, op)))
  {
    hide Has, WithBit, DecodeField;
    InBitset(slots, op.id);
  }

  lemma NewShows(schema: Schema, hash: Hash, name: Name, ops: seq<Op>)
    requires name in schema && schema[name].Record?
    requires forall i :: 0 <= i < |ops| ==>
        Allowed(schema[name].slots, ops[i]) && WellTyped(schema, hash, schema[name].slots, ops[i])
    ensures var slots := schema[name].slots;
            ShowsRun(schema, slots, map[], ops,
                     StateFields(schema, slots, RunFrom(schema, slots, FreshState(slots, None), ops)))
  {
    hide ValidState, RunFrom, WellTyped, FieldMeaning, ShownAfter, StateFields, Has;
    var slots := schema[name].slots;
    var st := FreshState(slots, None);
    FreshIsValid(schema, hash, name, None);
    forall id: nat | Live(slots, id)
      ensures Shown(schema, slots[id].ty, FieldOf(StateFields(schema, slots, RunFrom(schema, slots, st, ops)), id))
        == ShownAfter(schema, slots[id].ty, Shown(schema, slots[id].ty, FieldOf(map[], id)), ops, id)
    {
      RunShown(schema, hash, name, st, ops, id);
      NothingSet(WordsFor(LiveCount(slots)), id);
      FreshFieldAbsent(schema, slots, st, id);
      FieldIs(schema, slots, RunFrom(schema, slots, st, ops), id);
    }
  }

  /** A new message, filled with values built without a source and serialized: every field shows the
      value stored in it last, and unless a count overflowed in the words they are in the wire format. */
  method BuildMessage(schema: Schema, name: Name, ops: seq<Op>, hash: Hash, clock: Clock, buffer: Buffer)
    returns (unit: Option<Unit>, ghost encoded: seq<u32>, ghost final: State)
    requires name in schema && schema[name].Record? && buffer.Valid()
    requires forall i :: 0 <= i < |ops| ==>
        Allowed(schema[name].slots, ops[i]) && WellTyped(schema, hash, schema[name].slots, ops[i])
    requires forall i :: 0 <= i < |ops| && ops[i].Set? ==> Unsourced(ops[i].value)
    modifies buffer.Repr()
    ensures buffer.Valid() && final == RunFrom(schema, schema[name].slots, FreshState(schema[name].slots, None), ops)
    ensures unit.Some? ==> Delivers(unit.value, encoded, old(buffer.View()), buffer.View())
    ensures MAccepted(schema, hash, clock, Message(name), MMessage(final)) ==> unit.Some?
    ensures ShowsRun(schema, schema[name].slots, map[], ops, StateFields(schema, schema[name].slots, final))
    ensures MAccepted(schema, hash, clock, Message(name), MMessage(final))
            && !Overrun(schema, Message(name), MMessage(final), encoded) ==>
              EncodingOf(schema, hash, Message(name), VRecord(StateFields(schema, schema[name].slots, final)), encoded)
  {
    hide StateFields, MRead, Tight, Canonical, EncodingOf, Omits, Buffer.View, RunFrom, MAccepted, ValidState,
         WellTyped, Overrun, Delivers, MFaithful, ShowsRun, StateLeft, Unsourced;
    var message := new MutableMessage.New(schema, name, hash);
    message.Run(ops, hash);
    final := message.Now();
    NewShows(schema, hash, name, ops);
    if MAccepted(schema, hash, clock, Message(name), MMessage(final)) {
      NewUnsourced(schema, hash, clock, name, ops, final);
    }
    unit, encoded := message.EncodeToUnit(hash, clock, buffer);
    if unit.Some? && !Overrun(schema, Message(name), MMessage(final), encoded) {
      SerializedReads(schema, hash, name, final, encoded, []);
    }
  }

  lemma NewUnsourced(schema: Schema, hash: Hash, clock: Clock, name: Name, ops: seq<Op>, final: State)
    requires ValidState(schema, hash, name, final)
    requires forall i :: 0 <= i < |ops| ==> Allowed(schema[name].slots, ops[i])
    requires forall i :: 0 <= i < |ops| && ops[i].Set? ==> Unsourced(ops[i].value)
    requires final == RunFrom(schema, schema[name].slots, FreshState(schema[name].slots, None), ops)
    requires MAccepted(schema, hash, clock, Message(name), MMessage(final))
    ensures Canonical(schema, hash, Message(name), MMessage(final))
  {
    hide RunFrom, Canonical, MWeight;
    RunUnsourced(schema, schema[name].slots, FreshState(schema[name].slots, None), ops);
    UnsourcedCanonical(schema, hash, Message(name), MMessage(final));
  }

  // ----- untouched messages

  /** An untouched message is tight exactly when its words are those that convey it, and detection
      finds those in any case. */
  lemma CleanExtent(schema: Schema, hash: Hash, name: Name, st: State, v: Value, core: seq<u32>)
    requires name in schema && schema[name].Record? && IsClean(st)
    requires Conveys(schema, hash, Message(name), v, core) && core <= st.words.value
    ensures DetectObject(schema, Message(name), st.words.value) == Some(|core|)
    ensures Extends(schema, Message(name), st.words.value) <==> st.words.value == core
    ensures Tight(schema, Message(name), MMessage(st)) <==> st.words.value == core
  {
    hide Conveys, DetectObject, ReadObject;
    var words := st.words.value;
    var rest := words[|core|..];
    assert words == core + rest;
    CoreExtent(schema, hash, Message(name), v, core, rest);
    if Extends(schema, Message(name), words) {
      assert words + [] == words;
      assert DetectObject(schema, Message(name), words + []) == Some(|words|);
    }
    if words == core { ConveysReads(schema, hash, Message(name), v, core); }
  }

  const NESTED: Schema := map["Outer" := Record([Field(Message("Inner"), false)]),
      "Inner" := Record([Field(Bool, false)])]

  const SPARE: seq<u32> := [0x100, 0, 5]

  lemma NestedWords()
    ensures Trim([[]]) == [] && RecordFits([[]]) && CountsFit([[]], 0) && RecordWords([[]], 0) == [0]
    ensures Trim([[0]]) == [[0]] && RecordFits([[0]]) && CountsFit([[0]], 0) && RecordWords([[0]], 0) == [0x100, 0]
  {
    NothingPresent([[]], 0);
    SafeCounts([[]], 0);
    SafeCounts([[0]], 0);
    var units := Units([[0]], 0);
    assert units == [InlineUnit([0])];
    assert PackWidths(units) == 1 by { assert units[1..] == []; }
    assert units[..1] == units;
    assert MessageBody(units, 0) == [0] by { assert units[1..] == []; }
    assert Head(units) == 0x100;
  }

  /** The outer message of SPARE holds an empty inner one, and a word follows it. */
  lemma SpareFramed(hash: Hash)
    ensures Conveys(NESTED, hash, Message("Inner"), VRecord(map[]), [0])
    ensures Framed(NESTED, hash, Message("Outer"), VRecord(map[0 := VRecord(map[])]), SPARE)
  {
    hide Conveys, RecordWords, CountsFit, RecordFits, Trim;
    NestedWords();
    RecordFramed(NESTED, hash, "Inner", map[], [[]], 0);
    FramesWhole(NESTED, hash, Message("Inner"), VRecord(map[]), [0]);
    RecordFramed(NESTED, hash, "Outer", map[0 := VRecord(map[])], [[0]], 0);
    assert [0x100, 0] <= SPARE;
  }

  lemma NothingInFront(v: nat)
    ensures Count32(And(v, Pow2(0 * 2) - 1)) == 0
  {
    CountZero();
  }

  lemma SpareField()
    ensures FieldIn(SPARE, 0) == Some(FieldView([0, 5], 1))
  {
    hide And, Count32;
    NothingInFront(1);
    assert Shr(1, 0) == 1;
    assert FieldSlot(SPARE, 0) == Some((0, 1));
    assert SPARE[1..] == [0, 5];
  }

  /** Reading the sub-message once materialises it with everything that follows it in the source; it
      stays untouched, is copied with the spare word, and is not tight. */
  lemma SpareWordsKept(hash: Hash)
    ensures SourceOk(NESTED, hash, "Outer", SPARE)
    ensures var outer, inner := NESTED["Outer"].slots, NESTED["Inner"].slots;
            var st := Step(NESTED, outer, FreshState(outer, Some(SPARE)), Get(0));
            && 0 in st.slots && st.slots[0] == MMessage(FreshState(inner, Some([0, 5])))
            && IsClean(st.slots[0].state)
            && DetectObject(NESTED, Message("Inner"), [0, 5]) == Some(1)
            && !Tight(NESTED, Message("Inner"), st.slots[0])
  {
    hide Conveys, DetectObject, Framed, FieldIn, WithBit, Has;
    SpareFramed(hash);
    SourceOfFramed(NESTED, hash, "Outer", VRecord(map[0 := VRecord(map[])]), SPARE);
    SpareField();
    var outer, inner := NESTED["Outer"].slots, NESTED["Inner"].slots;
    var st := FreshState(outer, Some(SPARE));
    NothingSet(WordsFor(LiveCount(outer)), 0);
    NothingAccessed(WordsFor(LiveCount(inner)));
    DecodesMessage(NESTED, Message("Inner"), [0, 5]);
    assert FirstSlot(NESTED, outer, st, 0) == Some(MMessage(FreshState(inner, Some([0, 5]))));
    CoreExtent(NESTED, hash, Message("Inner"), VRecord(map[]), [0], [5]);
    assert [0] + [5] == [0, 5];
  }

  // ----- has_field

  predicate StoredIn(ops: seq<Op>, id: nat) {
    exists i :: 0 <= i < |ops| && ops[i].Set? && ops[i].id == id
  }

  /** What the documentation of has_field says: in the source, or set. */
  predicate InSourceOrSet(words: Option<seq<u32>>, ops: seq<Op>, id: nat) {
    InSource(words, id) || StoredIn(ops, id)
  }

  /** After a run, has_field is as documented for a field exactly when the field was not stored or is
      present in the source; it is for all fields exactly when every field stored is. */
  lemma HasFieldIff(schema: Schema, slots: seq<Slot>, st: State, ops: seq<Op>)
    requires (forall i :: 0 <= i < |ops| ==> Allowed(slots, ops[i])) && |st.accessed| == WordsFor(LiveCount(slots))
    ensures var final := RunFrom(schema, slots, st, ops);
            && (forall id: nat :: (InSource(final.words, id) <==> InSourceOrSet(st.words, ops, id)) <==>
                (StoredIn(ops, id) ==> InSource(st.words, id)))
            && ((forall id: nat :: InSource(final.words, id) <==> InSourceOrSet(st.words, ops, id)) <==>
                forall i :: 0 <= i < |ops| && ops[i].Set? ==> InSource(st.words, ops[i].id))
  {
    hide InSource, RunFrom;
    RunAccess(schema, slots, st, ops, 0);
    var final := RunFrom(schema, slots, st, ops);
    if forall id: nat :: InSource(final.words, id) <==> InSourceOrSet(st.words, ops, id) {
      forall i | 0 <= i < |ops| && ops[i].Set? ensures InSource(st.words, ops[i].id) {
        assert StoredIn(ops, ops[i].id);
        assert InSourceOrSet(st.words, ops, ops[i].id);
      }
    }
  }

  /** A field stored in a new message is not reported. */
  lemma StoredButNotReported(schema: Schema, slots: seq<Slot>, id: nat, value: MValue)
    requires Live(slots, id)
    ensures var st := FreshState(slots, None);
            var final := RunFrom(schema, slots, st, [Set(id, value)]);
            && InSourceOrSet(st.words, [Set(id, value)], id) && !InSource(final.words, id)
            && id in final.slots && final.slots[id] == value
  {
    hide WithBit, Has;
    var st, ops := FreshState(slots, None), [Set(id, value)];
    RunCons(schema, slots, st, ops);
    StoresValue(schema, slots, st, ops[0]);
    StepAccess(schema, slots, st, ops[0], id);
    assert ops[0].Set? && ops[0].id == id;
    assert ops[1..] == [];
  }
}
