/** The generated mutable message: source words, an access bitset and lazily decoded field slots,
    updated in place by the accessors. */
module LazyMessages {
  import opened Bits
  import opened Wrappers
  import opened Buffers
  import opened PerfectHash
  import opened Views
  import opened Schemas
  import opened Cores
  import opened Conveying
  import opened MapKeys
  import opened AccessSets
  import opened MutableValues
  import opened MutableEncoder
  import opened Decoding

  // ----- the state after each accessor

  function DefaultMessage(schema: Schema, ty: Type): MValue {
    match RecordSlots(schema, ty)
    case Some(slots) => MMessage(FreshState(slots, None))
    case None => if ItemType(schema, ty).Some? then MList([]) else MMap(map[])
  }

  predicate IsMessageField(ty: Type) {
    ty.Message?
  }

  /** What get_field stores on first access: the decoded source field, or the default. */
  function FirstSlot(schema: Schema, slots: seq<Slot>, st: State, id: nat): Option<MValue>
    requires Live(slots, id)
  {
    if st.words.None? then None
    else
      match FieldIn(st.words.value, id)
      case None => None
      case Some(field) => DecodeField(schema, slots[id].ty, field)
  }

  function SlotPut(slots: map<nat, MValue>, id: nat, value: Option<MValue>): map<nat, MValue> {
    match value
    case None => slots - {id}
    case Some(mv) => slots[id := mv]
  }

  /** The first access marks the field and decodes it; later ones change nothing. */
  function Touched(schema: Schema, slots: seq<Slot>, st: State, id: nat): State
    requires Live(slots, id) && id / 64 < |st.accessed|
  {
    if Has(st.accessed, id) then st
    else State(st.words, WithBit(st.accessed, id), SlotPut(st.slots, id, FirstSlot(schema, slots, st, id)))
  }

  /** The getter of a sub-message field also materialises an empty message. */
  function Materialized(schema: Schema, slots: seq<Slot>, st: State, id: nat): State
    requires Live(slots, id)
  {
    if IsMessageField(slots[id].ty) && id !in st.slots
    then st.(slots := st.slots[id := DefaultMessage(schema, slots[id].ty)]) else st
  }

  datatype Op = Get(id: nat) | Set(id: nat, value: MValue)

  predicate Allowed(slots: seq<Slot>, op: Op) {
    Live(slots, op.id)
  }

  lemma InBitset(slots: seq<Slot>, id: nat)
    requires Live(slots, id)
    ensures id / 64 < WordsFor(LiveCount(slots))
  {
  }

  function Step(schema: Schema, slots: seq<Slot>, st: State, op: Op): State
    requires Allowed(slots, op) && |st.accessed| == WordsFor(LiveCount(slots))
  {
    InBitset(slots, op.id);
    var got := Materialized(schema, slots, Touched(schema, slots, st, op.id), op.id);
    match op
    case Get(_) => got
    case Set(id, value) => got.(slots := got.slots[id := value])
  }

  lemma StepLength(schema: Schema, slots: seq<Slot>, st: State, op: Op)
    requires Allowed(slots, op) && |st.accessed| == WordsFor(LiveCount(slots))
    ensures |Step(schema, slots, st, op).accessed| == |st.accessed|
  {
    InBitset(slots, op.id);
  }

  function RunFrom(schema: Schema, slots: seq<Slot>, st: State, ops: seq<Op>): (final: State)
    requires (forall i :: 0 <= i < |ops| ==> Allowed(slots, ops[i])) && |st.accessed| == WordsFor(LiveCount(slots))
    ensures |final.accessed| == |st.accessed|
    decreases |ops|
  {
    if ops == [] then st
    else
      StepLength(schema, slots, st, ops[0]);
      RunFrom(schema, slots, Step(schema, slots, st, ops[0]), ops[1..])
  }

  // ----- what a run leaves

  predicate Touches(ops: seq<Op>, id: nat) {
    exists i :: 0 <= i < |ops| && ops[i].id == id
  }

  lemma StepAccess(schema: Schema, slots: seq<Slot>, st: State, op: Op, id: nat)
    requires Allowed(slots, op) && |st.accessed| == WordsFor(LiveCount(slots))
    ensures Has(Step(schema, slots, st, op).accessed, id) <==> Has(st.accessed, id) || op.id == id
    ensures Step(schema, slots, st, op).words == st.words
    ensures op.id != id ==> (id in Step(schema, slots, st, op).slots <==> id in st.slots)
    ensures op.id != id && id in st.slots ==> Step(schema, slots, st, op).slots[id] == st.slots[id]
  {
    hide Has, WithBit, FirstSlot, DefaultMessage;
    InBitset(slots, op.id);
    WithBitAdds(st.accessed, op.id, id);
  }

  /** Over every run the bitset holds exactly the accessed fields, and the source stays. */
  lemma {:induction false} RunAccess(schema: Schema, slots: seq<Slot>, st: State, ops: seq<Op>, id: nat)
    requires (forall i :: 0 <= i < |ops| ==> Allowed(slots, ops[i])) && |st.accessed| == WordsFor(LiveCount(slots))
    ensures var final := RunFrom(schema, slots, st, ops);
            && (Has(final.accessed, id) <==> Has(st.accessed, id) || Touches(ops, id))
            && final.words == st.words
            && (!Touches(ops, id) ==>
                (id in final.slots <==> id in st.slots) && (id in st.slots ==> final.slots[id] == st.slots[id]))
    decreases |ops|
  {
    hide Has, Step;
    if ops != [] {
      StepLength(schema, slots, st, ops[0]);
      StepAccess(schema, slots, st, ops[0], id);
      RunAccess(schema, slots, Step(schema, slots, st, ops[0]), ops[1..], id);
      TouchesTail(ops, id);
    }
  }

  lemma TouchesTail(ops: seq<Op>, id: nat)
    requires ops != []
    ensures Touches(ops, id) <==> ops[0].id == id || Touches(ops[1..], id)
  {
    if Touches(ops, id) && ops[0].id != id {
      var i :| 0 <= i < |ops| && ops[i].id == id;
      assert ops[1..][i - 1].id == id;
    }
    if Touches(ops[1..], id) {
      var i :| 0 <= i < |ops[1..]| && ops[1..][i].id == id;
      assert ops[i + 1].id == id;
    }
  }

  lemma {:induction false} RunSplit(schema: Schema, slots: seq<Slot>, st: State, ops: seq<Op>, k: nat)
    requires (forall i :: 0 <= i < |ops| ==> Allowed(slots, ops[i]))
    requires |st.accessed| == WordsFor(LiveCount(slots)) && k <= |ops|
    ensures forall i :: 0 <= i < k ==> Allowed(slots, ops[..k][i])
    ensures RunFrom(schema, slots, st, ops) == RunFrom(schema, slots, RunFrom(schema, slots, st, ops[..k]), ops[k..])
    decreases k
  {
    if k > 0 {
      StepLength(schema, slots, st, ops[0]);
      RunSplit(schema, slots, Step(schema, slots, st, ops[0]), ops[1..], k - 1);
      assert ops[..k][1..] == ops[1..][..k - 1] && ops[1..][k - 1..] == ops[k..];
    } else {
      assert ops[..0] == [] && ops[0..] == ops;
    }
  }

  /** A field never accessed keeps its meaning through every run. */
  lemma UntouchedKept(schema: Schema, slots: seq<Slot>, st: State, ops: seq<Op>, id: nat)
    requires (forall i :: 0 <= i < |ops| ==> Allowed(slots, ops[i])) && |st.accessed| == WordsFor(LiveCount(slots))
    requires Live(slots, id) && !Touches(ops, id)
    ensures FieldMeaning(schema, slots, RunFrom(schema, slots, st, ops), id) == FieldMeaning(schema, slots, st, id)
  {
    hide Has, RunFrom, SlotMeaning;
    RunAccess(schema, slots, st, ops, id);
  }

  /** The last value stored in a field is what it reads as. */
  lemma LastSetRead(schema: Schema, hash: Hash, slots: seq<Slot>, st: State, ops: seq<Op>, k: nat)
    requires (forall i :: 0 <= i < |ops| ==> Allowed(slots, ops[i])) && |st.accessed| == WordsFor(LiveCount(slots))
    requires k < |ops| && ops[k].Set? && OnlyGets(ops[k + 1..], ops[k].id)
    ensures FieldMeaning(schema, slots, RunFrom(schema, slots, st, ops), ops[k].id)
        == SlotMeaning(schema, slots[ops[k].id].ty, ops[k].value)
    ensures ValidValue(schema, hash, slots[ops[k].id].ty, ops[k].value) ==>
        Shown(schema, slots[ops[k].id].ty, FieldMeaning(schema, slots, RunFrom(schema, slots, st, ops), ops[k].id))
          == MRead(schema, slots[ops[k].id].ty, ops[k].value)
  {
    hide RunFrom, SlotMeaning, Step, Has, ValidValue, MRead, FieldMeaning;
    var id, before := ops[k].id, RunPrefix(schema, slots, st, ops, k);
    RunSplit(schema, slots, st, ops, k);
    var rest := ops[k..];
    StepLength(schema, slots, before, rest[0]);
    StoresValue(schema, slots, before, ops[k]);
    RunCons(schema, slots, before, rest);
    assert rest[1..] == ops[k + 1..];
    GetsKeep(schema, slots, Step(schema, slots, before, rest[0]), rest[1..], id);
    AccessedIs(schema, slots, RunFrom(schema, slots, st, ops), id);
    if ValidValue(schema, hash, slots[id].ty, ops[k].value) { SlotReads(schema, hash, slots[id].ty, ops[k].value); }
  }

  ghost function RunPrefix(schema: Schema, slots: seq<Slot>, st: State, ops: seq<Op>, k: nat): (before: State)
    requires (forall i :: 0 <= i < |ops| ==> Allowed(slots, ops[i]))
    requires |st.accessed| == WordsFor(LiveCount(slots)) && k <= |ops|
    ensures |before.accessed| == |st.accessed|
  {
    RunFrom(schema, slots, st, ops[..k])
  }

  lemma RunCons(schema: Schema, slots: seq<Slot>, st: State, ops: seq<Op>)
    requires (forall i :: 0 <= i < |ops| ==> Allowed(slots, ops[i]))
    requires |st.accessed| == WordsFor(LiveCount(slots)) && ops != []
    ensures |Step(schema, slots, st, ops[0]).accessed| == |st.accessed|
    ensures RunFrom(schema, slots, st, ops) == RunFrom(schema, slots, Step(schema, slots, st, ops[0]), ops[1..])
  {
    StepLength(schema, slots, st, ops[0]);
  }

  lemma StoresValue(schema: Schema, slots: seq<Slot>, st: State, op: Op)
    requires Allowed(slots, op) && op.Set? && |st.accessed| == WordsFor(LiveCount(slots))
    ensures var next := Step(schema, slots, st, op);
            Has(next.accessed, op.id) && op.id in next.slots && next.slots[op.id] == op.value
  {
    StepAccess(schema, slots, st, op, op.id);
  }

  /** The slot of a field is settled: later reads cannot change it. */
  predicate Settled(slots: seq<Slot>, st: State, id: nat)
    requires Live(slots, id)
  {
    Has(st.accessed, id) && (IsMessageField(slots[id].ty) ==> id in st.slots)
  }

  predicate OnlyGets(ops: seq<Op>, id: nat) {
    forall i :: 0 <= i < |ops| && ops[i].id == id ==> ops[i].Get?
  }

  /** Reading accessors leave a settled slot alone. */
  lemma {:induction false} GetsKeep(schema: Schema, slots: seq<Slot>, st: State, ops: seq<Op>, id: nat)
    requires (forall i :: 0 <= i < |ops| ==> Allowed(slots, ops[i])) && |st.accessed| == WordsFor(LiveCount(slots))
    requires Live(slots, id) && Settled(slots, st, id) && OnlyGets(ops, id)
    ensures var final := RunFrom(schema, slots, st, ops);
            && Has(final.accessed, id) && (id in final.slots <==> id in st.slots)
            && (id in st.slots ==> final.slots[id] == st.slots[id])
    decreases |ops|
  {
    hide Has, WithBit;
    if ops != [] {
      StepLength(schema, slots, st, ops[0]);
      StepAccess(schema, slots, st, ops[0], id);
      GetsKeep(schema, slots, Step(schema, slots, st, ops[0]), ops[1..], id);
    }
  }

  // ----- first access

  /** The slot a source field is decoded into reads as the field, defaults as absent. */
  lemma FirstSlotRead(schema: Schema, hash: Hash, name: Name, st: State, id: nat)
    requires ValidState(schema, hash, name, st) && Live(schema[name].slots, id)
    ensures var slots := schema[name].slots;
            var slot := FirstSlot(schema, slots, st, id);
            && (slot.Some? <==> SourceMeaning(schema, slots, st.words, id).Some?)
            && (slot.Some? ==> Stands(schema, hash, slots[id].ty, SourceMeaning(schema, slots, st.words, id).value,
                slot))
  {
    hide FieldIn, DecodeField, Stands, ReadField, Conveys, StartsWith, SourceOk;
    var slots := schema[name].slots;
    if st.words.Some? {
      var v, core, rest := SourceParts(schema, hash, name, st.words.value);
      var c := SourceField(schema, hash, name, v, core, rest, id);
      if id in v.fields {
        FieldDecodes(schema, hash, slots[id].ty, v.fields[id], c, FieldIn(st.words.value, id).value);
        StandsSome(schema, hash, slots[id].ty, v.fields[id], FirstSlot(schema, slots, st, id));
      }
    }
  }

  lemma StandsSome(schema: Schema, hash: Hash, ty: Type, v: Value, mv: Option<MValue>)
    requires Stands(schema, hash, ty, v, mv)
    ensures mv.Some? && ValidValue(schema, hash, ty, mv.value) && MRead(schema, ty, mv.value) == v
  {
  }

  lemma DefaultStands(schema: Schema, hash: Hash, ty: Type)
    requires ty.Message? && ty.name in schema
    ensures ValidValue(schema, hash, ty, DefaultMessage(schema, ty))
    ensures SlotMeaning(schema, ty, DefaultMessage(schema, ty)).None?
  {
    hide FieldMeaning, Has;
    match RecordSlots(schema, ty) {
      case Some(slots) =>
        FreshIsValid(schema, hash, ty.name, None);
        var st := FreshState(slots, None);
        forall id: nat | Live(slots, id) ensures FieldMeaning(schema, slots, st, id).None? {
          NothingSet(WordsFor(LiveCount(slots)), id);
          FreshFieldAbsent(schema, slots, st, id);
        }
        MessageIs(schema, ty.name, st);
        SlotIs(schema, ty, MMessage(st));
      case None =>
        SlotIs(schema, ty, DefaultMessage(schema, ty));
    }
  }

  lemma FreshFieldAbsent(schema: Schema, slots: seq<Slot>, st: State, id: nat)
    requires Live(slots, id) && !Has(st.accessed, id) && st.words.None?
    ensures FieldMeaning(schema, slots, st, id).None?
  {
  }

  /** The first read of a field depends on the source alone. */
  lemma SameGet(schema: Schema, slots: seq<Slot>, st: State, st': State, id: nat)
    requires Live(slots, id) && |st.accessed| == |st'.accessed| == WordsFor(LiveCount(slots))
    requires st.words == st'.words && !Has(st.accessed, id) && !Has(st'.accessed, id)
    ensures var a, b := Step(schema, slots, st, Get(id)), Step(schema, slots, st', Get(id));
            && Settled(slots, a, id) && Settled(slots, b, id)
            && (id in a.slots <==> id in b.slots) && (id in a.slots ==> a.slots[id] == b.slots[id])
  {
    hide Has, WithBit, FieldIn, DecodeField, DefaultMessage;
    InBitset(slots, id);
    StepAccess(schema, slots, st, Get(id), id);
    StepAccess(schema, slots, st', Get(id), id);
  }

  /** A field that is read but never stored reads as after its first access. */
  lemma {:induction false} ReadOnlyField(schema: Schema, slots: seq<Slot>, st: State, ops: seq<Op>, id: nat)
    requires (forall i :: 0 <= i < |ops| ==> Allowed(slots, ops[i])) && |st.accessed| == WordsFor(LiveCount(slots))
    requires Live(slots, id) && !Has(st.accessed, id) && Touches(ops, id) && OnlyGets(ops, id)
    ensures FieldMeaning(schema, slots, RunFrom(schema, slots, st, ops), id)
        == FieldMeaning(schema, slots, Step(schema, slots, st, Get(id)), id)
    decreases |ops|
  {
    hide Has, Step, SlotMeaning, RunFrom;
    RunCons(schema, slots, st, ops);
    var next := Step(schema, slots, st, ops[0]);
    if ops[0].id == id {
      SameGet(schema, slots, st, st, id);
      GetsKeep(schema, slots, next, ops[1..], id);
      AccessedIs(schema, slots, next, id);
      AccessedIs(schema, slots, RunFrom(schema, slots, next, ops[1..]), id);
    } else {
      StepAccess(schema, slots, st, ops[0], id);
      TouchesTail(ops, id);
      SameGet(schema, slots, st, next, id);
      ReadOnlyField(schema, slots, next, ops[1..], id);
      AccessedIs(schema, slots, Step(schema, slots, next, Get(id)), id);
      AccessedIs(schema, slots, Step(schema, slots, st, Get(id)), id);
    }
  }

  /** A value equal to the default of its type. */
  predicate DefaultValue(v: Value) {
    match v
    case VBool(b) => !b
    case VNum(words) => forall i :: 0 <= i < |words| ==> words[i] == 0
    case VBytes(bytes) => bytes == []
    case VList(items) => items == []
    case VMap(entries) => entries == map[]
    case VRecord(_) => false
  }

  lemma EmptyIsDefault(schema: Schema, hash: Hash, ty: Type, v: Value, mv: MValue)
    requires Stands(schema, hash, ty, v, Some(mv))
    ensures IsEmptyField(mv) <==> DefaultValue(v)
  {
    hide ValidState, StateFields;
    if mv.MMap? {
      var entry := EntryType(schema, ty).value;
      MapIs(schema, ty, entry.0, entry.1, mv);
      assert mv.entries == map[] <==> mv.entries.Keys == {};
      assert v.entries == map[] <==> v.entries.Keys == {};
    } else if mv.MList? {
      ListIs(schema, ty, ItemType(schema, ty).value, mv);
    } else {
      PlainIs(schema, ty, mv);
    }
  }

  /** Reading a field for the first time changes nothing but presence: a default reads as absent, and
      so does a sub-message whose source is one word. */
  lemma FirstAccessRead(schema: Schema, hash: Hash, name: Name, st: State, id: nat)
    requires ValidState(schema, hash, name, st) && Live(schema[name].slots, id) && !Has(st.accessed, id)
    requires schema[name].slots[id].ty.Message? ==> schema[name].slots[id].ty.name in schema
    ensures var slots := schema[name].slots;
            var source, slot := SourceMeaning(schema, slots, st.words, id), FirstSlot(schema, slots, st, id);
            FieldMeaning(schema, slots, Step(schema, slots, st, Get(id)), id)
              == if source.None? || slot.None? || DefaultValue(source.value)
                  || Omits(schema, slots[id].ty, slot.value) then None else source
    ensures var slots := schema[name].slots;
            Shown(schema, slots[id].ty, FieldMeaning(schema, slots, Step(schema, slots, st, Get(id)), id))
              == Shown(schema, slots[id].ty, SourceMeaning(schema, slots, st.words, id))
  {
    hide Has, WithBit, FieldMeaning, SlotMeaning, MRead, DefaultMessage, Omits, SourceMeaning, FirstSlot;
    var slots, ty := schema[name].slots, schema[name].slots[id].ty;
    var slot, after := FirstSlot(schema, slots, st, id), Step(schema, slots, st, Get(id));
    InBitset(slots, id);
    StepAccess(schema, slots, st, Get(id), id);
    FirstSlotRead(schema, hash, name, st, id);
    AccessedIs(schema, slots, after, id);
    if slot.Some? {
      SlotIs(schema, ty, slot.value);
      EmptyIsDefault(schema, hash, ty, SourceMeaning(schema, slots, st.words, id).value, slot.value);
      StandsSome(schema, hash, ty, SourceMeaning(schema, slots, st.words, id).value, slot);
      SlotReads(schema, hash, ty, slot.value);
    } else if ty.Message? && ty.name in schema {
      DefaultStands(schema, hash, ty);
    }
  }

  // ----- every state of a run is well formed

  ghost predicate WellTyped(schema: Schema, hash: Hash, slots: seq<Slot>, op: Op) {
    && Allowed(slots, op)
    && (slots[op.id].ty.Message? ==> slots[op.id].ty.name in schema)
    && (op.Set? ==> ValidValue(schema, hash, slots[op.id].ty, op.value))
  }

  lemma StepValid(schema: Schema, hash: Hash, name: Name, st: State, op: Op)
    requires ValidState(schema, hash, name, st) && WellTyped(schema, hash, schema[name].slots, op)
    ensures |st.accessed| == WordsFor(LiveCount(schema[name].slots))
    ensures ValidState(schema, hash, name, Step(schema, schema[name].slots, st, op))
  {
    hide Has, WithBit, FirstSlot, DefaultMessage, SourceOk, MRead, SourceMeaning;
    var slots := schema[name].slots;
    InBitset(slots, op.id);
    FirstSlotRead(schema, hash, name, st, op.id);
    if FirstSlot(schema, slots, st, op.id).Some? {
      StandsSome(schema, hash, slots[op.id].ty, SourceMeaning(schema, slots, st.words, op.id).value,
                 FirstSlot(schema, slots, st, op.id));
    }
    if slots[op.id].ty.Message? { DefaultStands(schema, hash, slots[op.id].ty); }
    StepLength(schema, slots, st, op);
  }

  // ----- what a reader is shown

  /** What field `id` shows after a run: the value stored last, and reading changes nothing. */
  ghost function ShownAfter(schema: Schema, ty: Type, shown: Value, ops: seq<Op>, id: nat): Value
    decreases |ops|
  {
    if ops == [] then shown
    else
      var first := ops[0];
      ShownAfter(schema, ty, if first.Set? && first.id == id then MRead(schema, ty, first.value) else shown, ops[1..],
                 id)
  }

  /** One step shows the stored value, and otherwise what was shown before. */
  lemma StepShown(schema: Schema, hash: Hash, name: Name, st: State, op: Op, id: nat)
    requires ValidState(schema, hash, name, st) && WellTyped(schema, hash, schema[name].slots, op)
    requires Live(schema[name].slots, id)
    ensures |st.accessed| == WordsFor(LiveCount(schema[name].slots))
    ensures var slots := schema[name].slots;
            Shown(schema, slots[id].ty, FieldMeaning(schema, slots, Step(schema, slots, st, op), id))
              == if op.Set? && op.id == id then MRead(schema, slots[id].ty, op.value)
                 else Shown(schema, slots[id].ty, FieldMeaning(schema, slots, st, id))
  {
    hide Has, Step, SlotMeaning, MRead, ValidValue, Shown;
    var slots := schema[name].slots;
    if op.id != id {
      StepAccess(schema, slots, st, op, id);
    } else if op.Set? {
      StoresValue(schema, slots, st, op);
      AccessedIs(schema, slots, Step(schema, slots, st, op), id);
      SlotReads(schema, hash, slots[id].ty, op.value);
    } else if Has(st.accessed, id) {
      SecondAccess(schema, hash, slots, st, id);
    } else {
      FirstAccessRead(schema, hash, name, st, id);
    }
  }

  /** What a slot holds: its value, or the default its storage starts with. */
  ghost function Gives(schema: Schema, ty: Type, slot: Option<MValue>): Value {
    match slot
    case None => AbsentValue(schema, ty)
    case Some(mv) => MRead(schema, ty, mv)
  }

  /** The accessor of a field hands out what the field shows, and that of a sub-message always a message. */
  lemma AccessGives(schema: Schema, hash: Hash, name: Name, st: State, id: nat)
    requires ValidState(schema, hash, name, st) && WellTyped(schema, hash, schema[name].slots, Get(id))
    ensures |st.accessed| == WordsFor(LiveCount(schema[name].slots))
    ensures var slots, after := schema[name].slots, Step(schema, schema[name].slots, st, Get(id));
            && (slots[id].ty.Message? ==> id in after.slots)
            && Gives(schema, slots[id].ty, if id in after.slots then Some(after.slots[id]) else None)
              == Shown(schema, slots[id].ty, FieldMeaning(schema, slots, st, id))
  {
    hide Has, FieldMeaning, SlotMeaning, MRead, DefaultMessage, FirstSlot, WithBit, SourceOk;
    var slots := schema[name].slots;
    StepShown(schema, hash, name, st, Get(id), id);
    StepValid(schema, hash, name, st, Get(id));
    StepAccess(schema, slots, st, Get(id), id);
    var after := Step(schema, slots, st, Get(id));
    AccessedIs(schema, slots, after, id);
    if id in after.slots { SlotReads(schema, hash, slots[id].ty, after.slots[id]); }
  }

  /** A field accessed before keeps its meaning when it is read. */
  lemma SecondAccess(schema: Schema, hash: Hash, slots: seq<Slot>, st: State, id: nat)
    requires Live(slots, id) && Has(st.accessed, id) && |st.accessed| == WordsFor(LiveCount(slots))
    requires slots[id].ty.Message? ==> slots[id].ty.name in schema
    ensures FieldMeaning(schema, slots, Step(schema, slots, st, Get(id)), id) == FieldMeaning(schema, slots, st, id)
  {
    hide Has, DefaultMessage, SlotMeaning;
    if slots[id].ty.Message? { DefaultStands(schema, hash, slots[id].ty); }
  }

  /** Over every run a field shows the value stored last, or what the source shows. */
  lemma {:induction false} RunShown(schema: Schema, hash: Hash, name: Name, st: State, ops: seq<Op>, id: nat)
    requires ValidState(schema, hash, name, st) && Live(schema[name].slots, id)
    requires forall i :: 0 <= i < |ops| ==>
        Allowed(schema[name].slots, ops[i]) && WellTyped(schema, hash, schema[name].slots, ops[i])
    ensures |st.accessed| == WordsFor(LiveCount(schema[name].slots))
    ensures var slots, ty := schema[name].slots, schema[name].slots[id].ty;
            Shown(schema, ty, FieldMeaning(schema, slots, RunFrom(schema, slots, st, ops), id))
              == ShownAfter(schema, ty, Shown(schema, ty, FieldMeaning(schema, slots, st, id)), ops, id)
    decreases |ops|
  {
    hide ValidState, Step, WellTyped, FieldMeaning, Shown, MRead;
    AccessLength(schema, hash, name, st);
    if ops != [] {
      StepShown(schema, hash, name, st, ops[0], id);
      StepValid(schema, hash, name, st, ops[0]);
      RunShown(schema, hash, name, Step(schema, schema[name].slots, st, ops[0]), ops[1..], id);
    }
  }

  lemma AccessLength(schema: Schema, hash: Hash, name: Name, st: State)
    requires ValidState(schema, hash, name, st)
    ensures name in schema && schema[name].Record? && |st.accessed| == WordsFor(LiveCount(schema[name].slots))
  {
  }

  /** The field is present in the source message. */
  predicate InSource(words: Option<seq<u32>>, id: nat) {
    words.Some? && FieldIn(words.value, id).Some?
  }

  // ----- the object

  class MutableMessage {
    const schema: Schema
    const name: Name
    var words: Option<seq<u32>>
    var accessed: array<u64>
    var slots: map<nat, MValue>

    ghost predicate Valid(hash: Hash)
      reads this, accessed
    {
      ValidState(schema, hash, name, Now())
    }

    ghost function Now(): State
      reads this, accessed
    {
      State(words, accessed[..], slots)
    }

    function Fields(): seq<Slot>
      requires name in schema && schema[name].Record?
    {
      schema[name].slots
    }

    constructor New(schema: Schema, name: Name, ghost hash: Hash)
      requires name in schema && schema[name].Record?
      ensures Valid(hash) && fresh(accessed) && this.schema == schema && this.name == name
      ensures Now() == FreshState(schema[name].slots, None)
    {
      this.schema, this.name, words, slots := schema, name, None, map[];
      accessed := new u64[WordsFor(LiveCount(schema[name].slots))](_ => 0);
      new;
      assert accessed[..] == seq(WordsFor(LiveCount(schema[name].slots)), _ => 0);
      FreshIsValid(schema, hash, name, None);
    }

    /** State backed by an encoded message, with whatever follows it in the buffer. */
    constructor FromWords(schema: Schema, name: Name, source: seq<u32>, ghost hash: Hash)
      requires name in schema && schema[name].Record? && SourceOk(schema, hash, name, source)
      ensures Valid(hash) && fresh(accessed) && this.schema == schema && this.name == name
      ensures Now() == FreshState(schema[name].slots, Some(source))
    {
      this.schema, this.name, words, slots := schema, name, Some(source), map[];
      accessed := new u64[WordsFor(LiveCount(schema[name].slots))](_ => 0);
      new;
      assert accessed[..] == seq(WordsFor(LiveCount(schema[name].slots)), _ => 0);
      FreshIsValid(schema, hash, name, Some(source));
    }

    /** has_field: whether the source message has the field. */
    method HasField(id: nat) returns (has: bool)
      ensures has <==> InSource(words, id)
    {
      has := words.Some? && FieldIn(words.value, id).Some?;
    }

    method WasAccessed(id: nat) returns (was: bool)
      requires id / 64 < accessed.Length
      ensures was == Has(accessed[..], id)
    {
      was := And(accessed[id / 64], Pow2(id % 64)) != 0;
    }

    method HasAnyAccessed() returns (some: bool)
      ensures some == AnyAccessed(accessed[..])
      ensures some <==> exists id: nat :: Has(accessed[..], id)
    {
      AnyIsSome(accessed[..]);
      for i := 0 to accessed.Length
        invariant forall j :: 0 <= j < i ==> accessed[j] == 0
      {
        if accessed[i] != 0 {
          assert accessed[..][i] != 0;
          return true;
        }
      }
      return false;
    }

    /** The source words, unless some field was accessed. */
    method CleanWords() returns (clean: Option<seq<u32>>)
      ensures clean == if IsClean(Now()) then words else None
    {
      var some := HasAnyAccessed();
      clean := if some then None else words;
    }

    /** get_field: marks the field and decodes it on first access. */
    method GetField(id: nat, ghost hash: Hash) returns (slot: Option<MValue>)
      requires Valid(hash) && Live(Fields(), id)
      modifies this`slots, accessed
      ensures accessed == old(accessed) && words == old(words) && Now() == Touched(schema, Fields(), old(Now()), id)
      ensures slot == if id in slots then Some(slots[id]) else None
    {
      InBitset(Fields(), id);
      var was := WasAccessed(id);
      if !was {
        ghost var before := accessed[..];
        WordBits();
        StaysInWord(accessed[id / 64], id % 64, 64);
        accessed[id / 64] := Or(accessed[id / 64], Pow2(id % 64));
        assert accessed[..] == WithBit(before, id);
        slots := SlotPut(slots, id, if words.None? then None else
                           match FieldIn(words.value, id) case None => None case Some(field) => DecodeField(schema,
                               Fields()[id].ty, field));
      }
      slot := if id in slots then Some(slots[id]) else None;
    }

    /** The generated accessor of a field. */
    method Access(id: nat, ghost hash: Hash) returns (slot: Option<MValue>)
      requires Valid(hash) && WellTyped(schema, hash, Fields(), Get(id))
      modifies this`slots, accessed
      ensures accessed == old(accessed) && Valid(hash) && |old(Now()).accessed| == WordsFor(LiveCount(Fields()))
      ensures Now() == Step(schema, Fields(), old(Now()), Get(id))
      ensures slot == if id in slots then Some(slots[id]) else None
      ensures Fields()[id].ty.Message? ==> slot.Some?
      ensures Gives(schema, Fields()[id].ty, slot) ==
          Shown(schema, Fields()[id].ty, FieldMeaning(schema, Fields(), old(Now()), id))
    {
      AccessGives(schema, hash, name, Now(), id);
      StepValid(schema, hash, name, Now(), Get(id));
      slot := GetField(id, hash);
      if IsMessageField(Fields()[id].ty) && slot.None? {
        slots := slots[id := DefaultMessage(schema, Fields()[id].ty)];
        slot := Some(slots[id]);
      }
    }

    /** An assignment through the accessor of a field. */
    method Store(id: nat, value: MValue, ghost hash: Hash)
      requires Valid(hash) && WellTyped(schema, hash, Fields(), Set(id, value))
      modifies this`slots, accessed
      ensures accessed == old(accessed) && Valid(hash) && |old(Now()).accessed| == WordsFor(LiveCount(Fields()))
      ensures Now() == Step(schema, Fields(), old(Now()), Set(id, value))
    {
      StepValid(schema, hash, name, Now(), Set(id, value));
      StepValid(schema, hash, name, Now(), Get(id));
      var slot := Access(id, hash);
      slots := slots[id := value];
    }

    /** Any run of accessor calls and assignments. */
    method Run(ops: seq<Op>, ghost hash: Hash)
      requires Valid(hash) && forall i :: 0 <= i < |ops| ==>
          Allowed(Fields(), ops[i]) && WellTyped(schema, hash, Fields(), ops[i])
      modifies this`slots, accessed
      ensures accessed == old(accessed) && Valid(hash) && |old(Now()).accessed| == WordsFor(LiveCount(Fields()))
      ensures Now() == RunFrom(schema, Fields(), old(Now()), ops)
      decreases |ops|
    {
      if ops != [] {
        RunCons(schema, Fields(), Now(), ops);
        match ops[0] {
          case Get(id) => var slot := Access(id, hash);
          case Set(id, value) => Store(id, value, hash);
        }
        Run(ops[1..], hash);
      }
    }

    /** EncodeToUnit: the source words when nothing was accessed, otherwise a message in which every
        field reads as its meaning. */
    method EncodeToUnit(hash: Hash, clock: Clock, buffer: Buffer) returns (unit: Option<Unit>, ghost encoded: seq<u32>)
      requires Valid(hash) && buffer.Valid() && {this, accessed} !! buffer.Repr()
      modifies buffer.Repr()
      ensures buffer.Valid() && fresh(buffer.Repr() - old(buffer.Repr())) && Now() == old(Now())
      ensures IsClean(Now()) ==> unit.Some? && encoded == words.value
      ensures unit.Some? && !IsClean(Now()) ==> StateLeft(schema, name, Now(), encoded)
      ensures unit.Some? ==>
          MEncoded(schema, hash, Message(name), MMessage(Now()), unit.value, encoded, old(buffer.View()), buffer.View())
      ensures MAccepted(schema, hash, clock, Message(name), MMessage(Now())) ==> unit.Some?
    {
      hide MEncoded, ValidState, IsClean, StateLeft, Buffer.View, MAccepted;
      unit, encoded := EncodeState(schema, hash, clock, name, State(words, accessed[..], slots), buffer);
    }
  }
}
