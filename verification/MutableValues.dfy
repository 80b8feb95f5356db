/** Generated mutable messages as values: nested messages keep the words they were decoded from and
    the bitset of accessed fields. What such a value reads as once it is serialized. */
module MutableValues {
  import opened Bits
  import opened Wrappers
  import opened PerfectHash
  import opened Views
  import C = Containers
  import opened Schemas
  import opened MapKeys
  import opened WireFormat
  import opened Sizing
  import opened Conveying
  import opened AccessSets

  /** A message slot left at its default holds no value at all. */
  datatype MValue =
    | MBool(b: bool)
    | MNum(words: seq<u32>)
    | MBytes(bytes: seq<u8>)
    | MList(items: seq<MValue>)
    | MMap(entries: map<Key, MValue>)
    | MMessage(state: State)

  datatype State = State(words: Option<seq<u32>>, accessed: seq<u64>, slots: map<nat, MValue>)

  /** One more than the id of the last live field. */
  function LiveCount(slots: seq<Slot>): (n: nat)
    ensures n <= |slots|
    ensures forall id: nat :: Live(slots, id) ==> id < n
    ensures n > 0 ==> Live(slots, n - 1)
  {
    if slots == [] then 0
    else if Live(slots, |slots| - 1) then |slots|
    else
      var n := LiveCount(slots[..|slots| - 1]);
      assert forall id: nat :: id < |slots| - 1 ==> Live(slots, id) == Live(slots[..|slots| - 1], id);
      n
  }

  /** Untouched and backed by source words. */
  predicate IsClean(st: State) {
    st.words.Some? && !AnyAccessed(st.accessed)
  }

  // ----- what a value reads as

  ghost function MRead(schema: Schema, ty: Type, mv: MValue): Value
    decreases mv, 4
  {
    match mv
    case MBool(b) => VBool(b)
    case MNum(words) => VNum(words)
    case MBytes(bytes) => VBytes(bytes)
    case MList(items) =>
      var item := ItemType(schema, ty);
      VList(seq(|items|, i requires 0 <= i < |items| => if item.Some? then MRead(schema, item.value, items[i])
          else VList([])))
    case MMap(entries) =>
      var entry := EntryType(schema, ty);
      VMap(map key | key in entries :: if entry.Some? then MRead(schema, entry.value.1, entries[key]) else VList([]))
    case MMessage(st) =>
      var slots := RecordSlots(schema, ty);
      if slots.Some? then VRecord(StateFields(schema, slots.value, st)) else VRecord(map[])
  }

  ghost function StateFields(schema: Schema, slots: seq<Slot>, st: State): map<nat, Value>
    decreases st, 3
  {
    map id: nat | id < |slots| && Live(slots, id)
        && FieldMeaning(schema, slots, st, id).Some? :: FieldMeaning(schema, slots, st, id).value
  }

  /** A field never accessed reads as in the source; an accessed one as its slot. */
  ghost function FieldMeaning(schema: Schema, slots: seq<Slot>, st: State, id: nat): Option<Value>
    requires Live(slots, id)
    decreases st, 2
  {
    if !Has(st.accessed, id) then SourceMeaning(schema, slots, st.words, id)
    else if id !in st.slots then None
    else SlotMeaning(schema, slots[id].ty, st.slots[id])
  }

  ghost function SourceMeaning(schema: Schema, slots: seq<Slot>, words: Option<seq<u32>>, id: nat): Option<Value>
    requires Live(slots, id)
  {
    if words.Some? && FieldIn(words.value, id).Some? then ReadSlot(schema, slots, words.value, id) else None
  }

  /** A slot holding a default reads as absent. */
  ghost function SlotMeaning(schema: Schema, ty: Type, mv: MValue): Option<Value>
    decreases mv, 5
  {
    if IsEmptyField(mv) || Omits(schema, ty, mv) then None else Some(MRead(schema, ty, mv))
  }

  /** is_empty_field */
  predicate IsEmptyField(mv: MValue) {
    match mv
    case MBool(b) => !b
    case MNum(words) => forall i :: 0 <= i < |words| ==> words[i] == 0
    case MBytes(bytes) => bytes == []
    case MList(items) => items == []
    case MMap(entries) => entries == map[]
    case MMessage(_) => false
  }

  /** omits_default_after_encode together with should_omit_message_unit: a message of one word. */
  ghost predicate Omits(schema: Schema, ty: Type, mv: MValue)
    decreases mv, 3
  {
    var slots := RecordSlots(schema, ty);
    mv.MMessage? && slots.Some? && IsOneWord(schema, slots.value, mv.state)
  }

  ghost predicate IsOneWord(schema: Schema, slots: seq<Slot>, st: State)
    decreases st, 3
  {
    if IsClean(st) then |st.words.value| == 1
    else forall id: nat :: Live(slots, id) ==> FieldMeaning(schema, slots, st, id).None?
  }

  lemma SlotIs(schema: Schema, ty: Type, mv: MValue)
    ensures SlotMeaning(schema, ty, mv) == if IsEmptyField(mv)
        || Omits(schema, ty, mv) then None else Some(MRead(schema, ty, mv))
    ensures !mv.MMessage? ==> !Omits(schema, ty, mv)
  {
  }

  lemma AccessedIs(schema: Schema, slots: seq<Slot>, st: State, id: nat)
    requires Live(slots, id) && Has(st.accessed, id)
    ensures FieldMeaning(schema, slots, st, id) == if id in st.slots
        then SlotMeaning(schema, slots[id].ty, st.slots[id]) else None
  {
  }

  lemma MessageIs(schema: Schema, name: Name, st: State)
    requires name in schema && schema[name].Record?
    ensures MRead(schema, Message(name), MMessage(st)) == VRecord(StateFields(schema, schema[name].slots, st))
    ensures Omits(schema, Message(name), MMessage(st)) <==> IsOneWord(schema, schema[name].slots, st)
  {
  }

  lemma ListIs(schema: Schema, ty: Type, item: Type, mv: MValue)
    requires mv.MList? && ItemType(schema, ty) == Some(item)
    ensures MRead(schema, ty, mv).VList? && |MRead(schema, ty, mv).items| == |mv.items|
    ensures forall i :: 0 <= i < |mv.items| ==> MRead(schema, ty, mv).items[i] == MRead(schema, item, mv.items[i])
  {
  }

  lemma MapIs(schema: Schema, ty: Type, kt: KeyType, vt: Type, mv: MValue)
    requires mv.MMap? && EntryType(schema, ty) == Some((kt, vt))
    ensures MRead(schema, ty, mv).VMap? && MRead(schema, ty, mv).entries.Keys == mv.entries.Keys
    ensures forall key :: key in mv.entries ==> MRead(schema, ty, mv).entries[key] == MRead(schema, vt, mv.entries[key])
  {
  }

  lemma PlainIs(schema: Schema, ty: Type, mv: MValue)
    ensures mv.MBool? ==> MRead(schema, ty, mv) == VBool(mv.b)
    ensures mv.MNum? ==> MRead(schema, ty, mv) == VNum(mv.words)
    ensures mv.MBytes? ==> MRead(schema, ty, mv) == VBytes(mv.bytes)
  {
  }

  // ----- well-formed values

  /** The words start with words that convey a message, whatever follows them. */
  ghost predicate SourceOk(schema: Schema, hash: Hash, name: Name, words: seq<u32>) {
    exists v :: Framed(schema, hash, Message(name), v, words)
  }

  ghost predicate ValidState(schema: Schema, hash: Hash, name: Name, st: State)
    decreases st
  {
    && name in schema && schema[name].Record?
    && |st.accessed| == WordsFor(LiveCount(schema[name].slots))
    && (st.words.Some? ==> SourceOk(schema, hash, name, st.words.value))
    && forall id :: id in st.slots ==>
         Live(schema[name].slots, id) && ValidValue(schema, hash, schema[name].slots[id].ty, st.slots[id])
  }

  /** A value of the type. */
  ghost predicate ValidValue(schema: Schema, hash: Hash, ty: Type, mv: MValue)
    decreases mv
  {
    match mv
    case MBool(_) => ty.Bool?
    case MNum(words) => ty.Scalar? && |words| == ty.width
    case MBytes(_) => ty.Text?
    case MList(items) =>
      var item := ItemType(schema, ty);
      item.Some? && forall i :: 0 <= i < |items| ==> ValidValue(schema, hash, item.value, items[i])
    case MMap(entries) =>
      var entry := EntryType(schema, ty);
      && entry.Some?
      && forall key :: key in entries ==>
          MatchesKey(entry.value.0, key) && ValidValue(schema, hash, entry.value.1, entries[key])
    case MMessage(st) => ty.Message? && ValidState(schema, hash, ty.name, st)
  }

  /** A value other than a sub-message is left out exactly when it is what an absent field is taken for. */
  lemma EmptyReads(schema: Schema, hash: Hash, ty: Type, mv: MValue)
    requires ValidValue(schema, hash, ty, mv) && !mv.MMessage?
    ensures SlotMeaning(schema, ty, mv).None? <==> MRead(schema, ty, mv) == AbsentValue(schema, ty)
  {
    hide MRead, SlotMeaning;
    SlotIs(schema, ty, mv);
    PlainIs(schema, ty, mv);
    if mv.MList? {
      ListIs(schema, ty, ItemType(schema, ty).value, mv);
    } else if mv.MMap? {
      var (kt, vt) := EntryType(schema, ty).value;
      MapIs(schema, ty, kt, vt, mv);
      assert mv.entries == map[] <==> mv.entries.Keys == {};
    }
  }

  // ----- which encodings end where detection says

  /** Every untouched message that will be copied from its source consists of exactly the words that
      detection finds. */
  predicate Tight(schema: Schema, ty: Type, mv: MValue)
    decreases mv
  {
    match mv
    case MList(items) =>
      var item := ItemType(schema, ty);
      item.Some? ==> forall i :: 0 <= i < |items| ==> Tight(schema, item.value, items[i])
    case MMap(entries) =>
      var entry := EntryType(schema, ty);
      entry.Some? ==> forall key :: key in entries ==> Tight(schema, entry.value.1, entries[key])
    case MMessage(st) =>
      var slots := RecordSlots(schema, ty);
      slots.Some? ==>
        if IsClean(st) then DetectObject(schema, ty, st.words.value) == Some(|st.words.value|)
        else forall id :: id in st.slots && Live(slots.value, id) && Has(st.accessed, id) ==>
            Tight(schema, slots.value[id].ty, st.slots[id])
    case _ => true
  }

  predicate TightField(schema: Schema, slots: seq<Slot>, st: State, id: nat)
    requires Live(slots, id)
  {
    id in st.slots && Has(st.accessed, id) ==> Tight(schema, slots[id].ty, st.slots[id])
  }

  // ----- which encodings are in the wire format

  /** Every source that words are copied from is in the wire format, and untouched messages consist of
      nothing else. Scalar lists stay below the 2^30 words that the other array encoders check. */
  ghost predicate Canonical(schema: Schema, hash: Hash, ty: Type, mv: MValue)
    decreases mv
  {
    match mv
    case MList(items) =>
      var item := ItemType(schema, ty);
      item.Some? ==>
        && (item.value.Scalar? ==> |items| * item.value.width < C.MAX_SIZE)
        && forall i :: 0 <= i < |items| ==> Canonical(schema, hash, item.value, items[i])
    case MMap(entries) =>
      var entry := EntryType(schema, ty);
      entry.Some? ==> forall key :: key in entries ==> Canonical(schema, hash, entry.value.1, entries[key])
    case MMessage(st) =>
      var slots := RecordSlots(schema, ty);
      slots.Some? ==>
        if IsClean(st) then exists v :: EncodingOf(schema, hash, ty, v, st.words.value)
        else
          && (st.words.Some? ==> InFormat(schema, hash, ty, st.words.value))
          && forall id :: id in st.slots && Live(slots.value, id) && Has(st.accessed, id) ==>
               Canonical(schema, hash, slots.value[id].ty, st.slots[id])
    case _ => true
  }

  /** The words start with an encoding. */
  ghost predicate InFormat(schema: Schema, hash: Hash, ty: Type, words: seq<u32>) {
    exists v, e {:trigger EncodingOf(schema, hash, ty, v, e)} :: EncodingOf(schema, hash, ty, v, e) && e <= words
  }

  ghost predicate CanonicalField(schema: Schema, hash: Hash, name: Name, slots: seq<Slot>, st: State, id: nat)
    requires Live(slots, id)
  {
    && (st.words.Some? ==> InFormat(schema, hash, Message(name), st.words.value))
    && (id in st.slots && Has(st.accessed, id) ==> Canonical(schema, hash, slots[id].ty, st.slots[id]))
  }

  lemma {:induction false} CanonicalTight(schema: Schema, hash: Hash, ty: Type, mv: MValue)
    requires Canonical(schema, hash, ty, mv)
    ensures Tight(schema, ty, mv)
    decreases mv
  {
    hide EncodingOf, InFormat, DetectObject, Has;
    match mv {
      case MList(items) =>
        if ItemType(schema, ty).Some? {
          forall i | 0 <= i < |items| ensures Tight(schema, ItemType(schema, ty).value, items[i]) {
            CanonicalTight(schema, hash, ItemType(schema, ty).value, items[i]);
          }
        }
      case MMap(entries) =>
        if EntryType(schema, ty).Some? {
          forall key | key in entries ensures Tight(schema, EntryType(schema, ty).value.1, entries[key]) {
            CanonicalTight(schema, hash, EntryType(schema, ty).value.1, entries[key]);
          }
        }
      case MMessage(st) =>
        if RecordSlots(schema, ty).Some? {
          var slots := RecordSlots(schema, ty).value;
          if IsClean(st) {
            EncodingFound(schema, hash, ty, st.words.value);
          } else {
            forall id | id in st.slots && Live(slots, id) && Has(st.accessed, id)
              ensures Tight(schema, slots[id].ty, st.slots[id])
            {
              CanonicalTight(schema, hash, slots[id].ty, st.slots[id]);
            }
          }
        }
      case _ =>
    }
  }

  lemma EncodingFound(schema: Schema, hash: Hash, ty: Type, words: seq<u32>)
    requires !IsScalar(ty) && exists v :: EncodingOf(schema, hash, ty, v, words)
    ensures DetectObject(schema, ty, words) == Some(|words|)
  {
    hide EncodingOf, DetectObject, Conveys;
    var v :| EncodingOf(schema, hash, ty, v, words);
    FormatConveys(schema, hash, ty, v, words);
    CoreExtent(schema, hash, ty, v, words, []);
    assert words + [] == words;
  }

  // ----- which values can be written

  /** An upper bound of the words a value is encoded to. */
  ghost function MWeight(schema: Schema, ty: Type, mv: MValue): nat
    decreases mv, 1
  {
    match mv
    case MBool(_) => 1
    case MNum(words) => |words|
    case MBytes(bytes) => |bytes| + 2
    case MList(items) =>
      var item := ItemType(schema, ty);
      if item.None? then 0
      else if item.value.Bool? then |items| + 2
      else 1 + Total(MItemWeights(schema, item.value, mv))
    case MMap(entries) =>
      var entry := EntryType(schema, ty);
      if entry.None? then 0 else 1 + IndexRoom(|entries|) + SumOf(MEntryWeights(schema, entry.value.1, mv))
    case MMessage(st) =>
      var slots := RecordSlots(schema, ty);
      if slots.None? then 0
      else if IsClean(st) then |st.words.value|
      else 511 + Total(MFieldWeights(schema, slots.value, st))
  }

  ghost function MItemWeights(schema: Schema, item: Type, mv: MValue): (bounds: seq<nat>)
    requires mv.MList?
    ensures |bounds| == |mv.items|
    decreases mv, 0
  {
    seq(|mv.items|, i requires 0 <= i < |mv.items| => 1 + MWeight(schema, item, mv.items[i]))
  }

  ghost function MEntryWeights(schema: Schema, vt: Type, mv: MValue): (m: map<Key, nat>)
    requires mv.MMap?
    ensures m.Keys == mv.entries.Keys
    decreases mv, 0
  {
    map key | key in mv.entries :: 2 + KeyWeight(key) + MWeight(schema, vt, mv.entries[key])
  }

  ghost function MFieldWeights(schema: Schema, slots: seq<Slot>, st: State): (bounds: seq<nat>)
    ensures |bounds| == LiveCount(slots)
    decreases st, 1
  {
    seq(LiveCount(slots), id requires 0 <= id < LiveCount(slots) =>
          if Live(slots, id) then FieldRoom(schema, slots, st, id) else 0)
  }

  /** Words of a field and its pointer: of its slot, or of the slice copied from the source. */
  ghost function FieldRoom(schema: Schema, slots: seq<Slot>, st: State, id: nat): nat
    requires Live(slots, id)
    decreases st, 0
  {
    if Has(st.accessed, id) then
      (if id in st.slots && !IsEmptyField(st.slots[id]) then 1 + MWeight(schema, slots[id].ty, st.slots[id]) else 0)
    else if st.words.None? || FieldIn(st.words.value, id).None? then 0
    else
      match DetectSlice(schema, slots[id].ty, FieldIn(st.words.value, id).value)
      case None => 0
      case Some(slice) => 1 + |slice|
  }

  // ----- values built without a source

  /** Every message in the value was created empty. */
  predicate Unsourced(mv: MValue)
    decreases mv
  {
    match mv
    case MList(items) => forall i :: 0 <= i < |items| ==> Unsourced(items[i])
    case MMap(entries) => forall key :: key in entries ==> Unsourced(entries[key])
    case MMessage(st) => st.words.None? && forall id :: id in st.slots ==> Unsourced(st.slots[id])
    case _ => true
  }

  /** What is built without a source and stays below 2^30 words is canonical. */
  lemma {:induction false} UnsourcedCanonical(schema: Schema, hash: Hash, ty: Type, mv: MValue)
    requires Unsourced(mv) && ValidValue(schema, hash, ty, mv) && MWeight(schema, ty, mv) < C.MAX_SIZE
    ensures Canonical(schema, hash, ty, mv)
    decreases mv
  {
    hide EncodingOf, InFormat, SourceOk, Has, IndexRoom;
    match mv {
      case MList(items) =>
        var item := ItemType(schema, ty).value;
        if !item.Bool? { ItemsCanonical(schema, hash, ty, item, mv); }
        forall i | 0 <= i < |items| ensures Canonical(schema, hash, item, items[i]) {
          if !item.Bool? {
            TotalCovers(MItemWeights(schema, item, mv), i);
            UnsourcedCanonical(schema, hash, item, items[i]);
          }
        }
      case MMap(entries) =>
        var vt := EntryType(schema, ty).value.1;
        forall key | key in entries ensures Canonical(schema, hash, vt, entries[key]) {
          SumCovers(MEntryWeights(schema, vt, mv), key);
          UnsourcedCanonical(schema, hash, vt, entries[key]);
        }
      case MMessage(st) =>
        var slots := RecordSlots(schema, ty).value;
        forall id | id in st.slots && Live(slots, id) && Has(st.accessed, id)
          ensures Canonical(schema, hash, slots[id].ty, st.slots[id])
        {
          if !IsEmptyField(st.slots[id]) {
            TotalCovers(MFieldWeights(schema, slots, st), id);
            assert MFieldWeights(schema, slots, st)[id] == 1 + MWeight(schema, slots[id].ty, st.slots[id]);
            UnsourcedCanonical(schema, hash, slots[id].ty, st.slots[id]);
          }
        }
      case _ =>
    }
  }

  /** The elements of a list of scalars are fewer than its weight. */
  lemma ItemsCanonical(schema: Schema, hash: Hash, ty: Type, item: Type, mv: MValue)
    requires mv.MList? && ItemType(schema, ty) == Some(item) && !item.Bool?
    requires ValidValue(schema, hash, ty, mv) && MWeight(schema, ty, mv) < C.MAX_SIZE
    ensures item.Scalar? ==> |mv.items| * item.width < C.MAX_SIZE
  {
    if item.Scalar? {
      forall i | 0 <= i < |mv.items| ensures item.width <= MItemWeights(schema, item, mv)[i] {
        assert ValidValue(schema, hash, item, mv.items[i]);
      }
      TotalLeast(MItemWeights(schema, item, mv), item.width);
    }
  }

  /** Written maps whose index the builder finds whatever the time, and written messages within the
      limits of the format. */
  ghost predicate MWellFormed(schema: Schema, hash: Hash, clock: Clock, ty: Type, mv: MValue)
    decreases mv
  {
    match mv
    case MList(items) =>
      var item := ItemType(schema, ty);
      item.Some? ==> forall i :: 0 <= i < |items| ==> MWellFormed(schema, hash, clock, item.value, items[i])
    case MMap(entries) =>
      var entry := EntryType(schema, ty);
      entry.Some? ==>
        && !IndexFails(hash, clock, entries)
        && forall key :: key in entries ==> MWellFormed(schema, hash, clock, entry.value.1, entries[key])
    case MMessage(st) =>
      var slots := RecordSlots(schema, ty);
      slots.Some? && !IsClean(st) ==>
        && 1 <= LiveCount(slots.value) <= 12 + 25 * 255
        && forall id :: id in st.slots && Live(slots.value, id) && Has(st.accessed, id) ==>
             MWellFormed(schema, hash, clock, slots.value[id].ty, st.slots[id])
    case _ => true
  }

  /** A value whose encoding succeeds: well formed, and unable to reach 2^30 words. */
  ghost predicate MAccepted(schema: Schema, hash: Hash, clock: Clock, ty: Type, mv: MValue) {
    MWellFormed(schema, hash, clock, ty, mv) && MWeight(schema, ty, mv) < C.MAX_SIZE
  }

  ghost predicate SlotAccepted(schema: Schema, hash: Hash, clock: Clock, slots: seq<Slot>, st: State, id: nat)
    requires Live(slots, id)
  {
    Has(st.accessed, id) && id in st.slots && !IsEmptyField(st.slots[id]) ==>
      MAccepted(schema, hash, clock, slots[id].ty, st.slots[id])
  }
}
