/** Value trees typed by a schema: what encoded words mean when read through the views, and how far
    they extend. */
module Schemas {
  import opened Bits
  import opened Wrappers
  import opened Packing
  import opened Strings
  import opened Views
  import opened Extents

  type Name = string

  /** Scalars take one word, or two for 64-bit types. */
  type ScalarWidth = w: nat | 1 <= w <= 2 witness 1

  datatype KeyType = TextKey | ScalarKey(width: ScalarWidth)

  datatype Type = Bool | Scalar(width: ScalarWidth) | Text | List(item: Type) | Map(key: KeyType,
      value: Type) | Message(name: Name)

  /** The field with number `id + 1`, if the schema has one. */
  datatype Slot = NoField | Field(ty: Type, deprecated: bool)

  /** An alias message stands for its single list or map. */
  datatype Desc = Record(slots: seq<Slot>) | ListAlias(item: Type) | MapAlias(key: KeyType, value: Type)

  type Schema = map<Name, Desc>

  datatype Key = BytesKey(bytes: seq<u8>) | NumKey(words: seq<u32>)

  /** Scalars are the words of their bit pattern; strings are bytes; a record holds its present fields. */
  datatype Value =
    | VBool(b: bool)
    | VNum(words: seq<u32>)
    | VBytes(bytes: seq<u8>)
    | VRecord(fields: map<nat, Value>)
    | VList(items: seq<Value>)
    | VMap(entries: map<Key, Value>)

  predicate IsScalar(ty: Type) {
    ty.Bool? || ty.Scalar?
  }

  predicate Live(slots: seq<Slot>, id: nat) {
    id < |slots| && slots[id].Field? && !slots[id].deprecated
  }

  // An alias has the shape of its list or map.

  function ItemType(schema: Schema, ty: Type): Option<Type> {
    match ty
    case List(item) => Some(item)
    case Message(name) => if name in schema && schema[name].ListAlias? then Some(schema[name].item) else None
    case _ => None
  }

  function EntryType(schema: Schema, ty: Type): Option<(KeyType, Type)> {
    match ty
    case Map(key, value) => Some((key, value))
    case Message(name) =>
      if name in schema && schema[name].MapAlias? then Some((schema[name].key, schema[name].value)) else None
    case _ => None
  }

  function RecordSlots(schema: Schema, ty: Type): Option<seq<Slot>> {
    match ty
    case Message(name) => if name in schema && schema[name].Record? then Some(schema[name].slots) else None
    case _ => None
  }

  function KeyBytes(key: Key): seq<u8> {
    match key
    case BytesKey(bytes) => bytes
    case NumKey(words) => BytesOfWords(words)
  }

  /** Strings are hashed as they are, numbers as all the bytes of their words from the low end. */
  lemma KeyBytesExact(key: Key)
    ensures key.BytesKey? ==> KeyBytes(key) == key.bytes
    ensures key.NumKey? ==> |KeyBytes(key)| == 4 * |key.words|
    ensures key.NumKey? ==> forall i :: 0 <= i < |key.words| ==>
        && KeyBytes(key)[4 * i] == key.words[i] % 0x100
        && KeyBytes(key)[4 * i + 1] == key.words[i] / 0x100 % 0x100
        && KeyBytes(key)[4 * i + 2] == key.words[i] / 0x1_0000 % 0x100
        && KeyBytes(key)[4 * i + 3] == key.words[i] / 0x100_0000 % 0x100
  {
    hide BytesOfWords;
    if key.NumKey? {
      forall i | 0 <= i < |key.words|
        ensures KeyBytes(key)[4 * i] == key.words[i] % 0x100
        ensures KeyBytes(key)[4 * i + 1] == key.words[i] / 0x100 % 0x100
        ensures KeyBytes(key)[4 * i + 2] == key.words[i] / 0x1_0000 % 0x100
        ensures KeyBytes(key)[4 * i + 3] == key.words[i] / 0x100_0000 % 0x100
      {
        LittleEndian(key.words, i);
      }
    }
  }

  /** Different keys of a map are different to the hash. */
  lemma KeyBytesDiffer(a: Key, b: Key)
    requires a.BytesKey? == b.BytesKey? && KeyBytes(a) == KeyBytes(b)
    ensures a == b
  {
    if a.NumKey? { BytesDiffer(a.words, b.words); }
  }

  // ----- reading

  function AllValues(read: seq<Option<Value>>): (values: Option<seq<Value>>)
    ensures values.Some? <==> forall i :: 0 <= i < |read| ==> read[i].Some?
    ensures values.Some? ==> |values.value| == |read| && forall i :: 0 <= i < |read| ==>
        read[i] == Some(values.value[i])
  {
    if forall i :: 0 <= i < |read| ==> read[i].Some?
    then Some(seq(|read|, i requires 0 <= i < |read| && read[i].Some? => read[i].value)) else None
  }

  function AllKeys(read: seq<Option<Key>>): (keys: Option<seq<Key>>)
    ensures keys.Some? <==> forall i :: 0 <= i < |read| ==> read[i].Some?
    ensures keys.Some? ==> |keys.value| == |read| && forall i :: 0 <= i < |read| ==> read[i] == Some(keys.value[i])
  {
    if forall i :: 0 <= i < |read| ==> read[i].Some?
    then Some(seq(|read|, i requires 0 <= i < |read| && read[i].Some? => read[i].value)) else None
  }

  /** Entries inserted one after the other. */
  function Collect(keys: seq<Key>, values: seq<Value>): map<Key, Value>
    requires |keys| == |values|
  {
    if keys == [] then map[]
        else Collect(keys[..|keys| - 1], values[..|keys| - 1])[keys[|keys| - 1] := values[|keys| - 1]]
  }

  function ReadKey(ty: KeyType, field: FieldView): Option<Key> {
    match ty
    case TextKey =>
      (match field.ObjectWords()
       case None => None
       case Some(words) => match StringBytes(words) case None => None case Some(bytes) => Some(BytesKey(bytes)))
    case ScalarKey(width) =>
      match field.RawWords()
      case None => None
      case Some(words) => if |words| == width then Some(NumKey(words)) else None
  }

  ghost function ReadField(schema: Schema, ty: Type, field: FieldView): Option<Value>
    decreases |field.tail|, 3
  {
    if IsScalar(ty) then
      match field.RawWords()
      case None => None
      case Some(words) =>
        if ty.Bool? then (if |words| == 1 then Some(VBool(words[0] != 0)) else None)
        else if |words| == ty.width then Some(VNum(words)) else None
    else
      match field.ObjectWords()
      case None => None
      case Some(words) => ReadObject(schema, ty, words)
  }

  ghost function ReadObject(schema: Schema, ty: Type, words: seq<u32>): Option<Value>
    decreases |words|, 2
  {
    match ty
    case Text => (match StringBytes(words) case None => None case Some(bytes) => Some(VBytes(bytes)))
    case List(item) => ReadList(schema, item, words)
    case Map(key, value) => ReadMap(schema, key, value, words)
    case Message(name) =>
      if name !in schema then None
      else
        (match schema[name]
         case Record(slots) => ReadRecord(schema, slots, words)
         case ListAlias(item) => ReadList(schema, item, words)
         case MapAlias(key, value) => ReadMap(schema, key, value, words))
    case _ => None
  }

  ghost function ReadList(schema: Schema, item: Type, words: seq<u32>): Option<Value>
    decreases |words|, 1
  {
    if item.Bool? then
      match StringBytes(words)
      case None => None
      case Some(bytes) => Some(VList(seq(|bytes|, i requires 0 <= i < |bytes| => VBool(bytes[i] != 0))))
    else
      match NewArray(words)
      case None => None
      case Some(view) =>
        if item.Scalar? && view.width != item.width then None
        else
          match AllValues(ReadElements(schema, item, words))
          case None => None
          case Some(items) => Some(VList(items))
  }

  ghost function ReadElements(schema: Schema, item: Type, words: seq<u32>): (read: seq<Option<Value>>)
    requires NewArray(words).Some?
    ensures |read| == NewArray(words).value.len
    decreases |words|, 0
  {
    var n := NewArray(words).value.len;
    seq(n, i requires 0 <= i < n => ReadField(schema, item, ArrayCell(words, i)))
  }

  ghost function ReadMap(schema: Schema, key: KeyType, value: Type, words: seq<u32>): Option<Value>
    decreases |words|, 1
  {
    match NewMap(words)
    case None => None
    case Some(_) =>
      var keys, values := AllKeys(ReadKeys(key, words)), AllValues(ReadValues(schema, value, words));
      if keys.Some? && values.Some? then Some(VMap(Collect(keys.value, values.value))) else None
  }

  function ReadKeys(key: KeyType, words: seq<u32>): (read: seq<Option<Key>>)
    requires NewMap(words).Some?
  {
    var n := NewMap(words).value.index.len;
    seq(n, i requires 0 <= i < n => ReadKey(key, MapCell(words, 2 * i)))
  }

  ghost function ReadValues(schema: Schema, value: Type, words: seq<u32>): (read: seq<Option<Value>>)
    requires NewMap(words).Some?
    decreases |words|, 0
  {
    var n := NewMap(words).value.index.len;
    seq(n, i requires 0 <= i < n => ReadField(schema, value, MapCell(words, 2 * i + 1)))
  }

  /** Present live fields, each read by its type. */
  ghost function ReadRecord(schema: Schema, slots: seq<Slot>, words: seq<u32>): Option<Value>
    decreases |words|, 1
  {
    if !IsMessage(words) then None
    else if forall id: nat :: Live(slots, id) && FieldIn(words, id).Some? ==> ReadSlot(schema, slots, words, id).Some?
    then Some(VRecord(map id: nat | id < |slots| && Live(slots, id) && FieldIn(words, id).Some? ::
        ReadSlot(schema, slots, words, id).value))
    else None
  }

  ghost function ReadSlot(schema: Schema, slots: seq<Slot>, words: seq<u32>, id: nat): Option<Value>
    requires Live(slots, id) && FieldIn(words, id).Some?
    decreases |words|, 0
  {
    FieldShorter(words, id);
    ReadField(schema, slots[id].ty, FieldIn(words, id).value)
  }

  // ----- extents

  function DetectKey(ty: KeyType, field: FieldView): Option<nat> {
    match ty
    case TextKey => DetectText(field)
    case ScalarKey(_) => DetectScalar(field)
  }

  function DetectScalar(field: FieldView): Option<nat> {
    match field.RawWords()
    case None => None
    case Some(words) => Some(|words|)
  }

  /** Start of the object of a field, in words from the field on. */
  function ObjectStart(field: FieldView): Option<nat> {
    if field.tail == [] then None
    else
      var start := if field.tail[0] % 4 == 3 then field.tail[0] / 4 else 0;
      if start <= |field.tail| then Some(start) else None
  }

  function DetectText(field: FieldView): Option<nat> {
    match ObjectStart(field)
    case None => None
    case Some(start) => match StringDetect(field.tail[start..]) case None => None case Some(len) => Some(start + len)
  }

  function DetectField(schema: Schema, ty: Type, field: FieldView): Option<nat>
    decreases |field.tail|, 3
  {
    if IsScalar(ty) then DetectScalar(field)
    else
      match ObjectStart(field)
      case None => None
      case Some(start) => match DetectObject(schema, ty,
          field.tail[start..]) case None => None case Some(len) => Some(start + len)
  }

  function DetectObject(schema: Schema, ty: Type, words: seq<u32>): Option<nat>
    decreases |words|, 2
  {
    match ty
    case Text => StringDetect(words)
    case List(item) => DetectList(schema, item, words)
    case Map(key, value) => DetectMap(schema, key, value, words)
    case Message(name) =>
      if name !in schema then None
      else
        (match schema[name]
         case Record(slots) => DetectRecord(schema, slots, words)
         case ListAlias(item) => DetectList(schema, item, words)
         case MapAlias(key, value) => DetectMap(schema, key, value, words))
    case _ => None
  }

  function DetectList(schema: Schema, item: Type, words: seq<u32>): Option<nat>
    decreases |words|, 1
  {
    if item.Bool? then StringDetect(words)
    else if item.Scalar? then
      match NewArray(words)
      case None => None
      case Some(view) => Some(1 + view.len * view.width)
    else ArrayExtent(words, (field: FieldView) requires |field.tail| < |words| => DetectField(schema, item, field))
  }

  function DetectMap(schema: Schema, key: KeyType, value: Type, words: seq<u32>): Option<nat>
    decreases |words|, 1
  {
    MapExtent(words, (field: FieldView) requires |field.tail| < |words| => DetectKey(key, field),
              (field: FieldView) requires |field.tail| < |words| => DetectField(schema, value, field))
  }

  function DetectRecord(schema: Schema, slots: seq<Slot>, words: seq<u32>): Option<nat>
    decreases |words|, 1
  {
    MessageExtent(words, |slots|, NeedsDetect(slots),
                  (id: nat, field: FieldView) requires id < |slots| && |field.tail| < |words| =>
                    if Live(slots, id) then DetectField(schema, slots[id].ty, field) else None)
  }

  /** Live fields whose payload may lie behind the body. */
  function NeedsDetect(slots: seq<Slot>): nat -> bool {
    (id: nat) => Live(slots, id) && !IsScalar(slots[id].ty)
  }

  /** The detected slice of a field. */
  function DetectSlice(schema: Schema, ty: Type, field: FieldView): Option<seq<u32>> {
    if IsScalar(ty) then field.RawWords()
    else
      match ObjectStart(field)
      case None => None
      case Some(start) =>
        match DetectObject(schema, ty, field.tail[start..])
        case None => None
        case Some(len) => if start + len <= |field.tail| then Some(field.tail[start..start + len]) else None
  }

  // ----- absent fields

  /** What a field that is not present is taken for. */
  function AbsentValue(schema: Schema, ty: Type): Value {
    match ty
    case Bool => VBool(false)
    case Scalar(width) => VNum(seq(width, _ => 0))
    case Text => VBytes([])
    case List(_) => VList([])
    case Map(_, _) => VMap(map[])
    case Message(name) =>
      if name in schema && schema[name].ListAlias? then VList([])
      else if name in schema && schema[name].MapAlias? then VMap(map[])
      else VRecord(map[])
  }

  function FieldOf(fields: map<nat, Value>, id: nat): Option<Value> {
    if id in fields then Some(fields[id]) else None
  }

  function Shown(schema: Schema, ty: Type, v: Option<Value>): Value {
    match v
    case None => AbsentValue(schema, ty)
    case Some(value) => value
  }

  // ----- the value an encoder keeps

  /** A sub-message without fields, or an alias of no bools: both encode to a single zero word, and
      as a singular field they count as absent. */
  predicate Blank(schema: Schema, ty: Type, v: Value) {
    && ty.Message? && ty.name in schema
    && match schema[ty.name]
       case Record(_) => v == VRecord(map[])
       case ListAlias(item) => item.Bool? && v == VList([])
       case MapAlias(_, _) => false
  }

  /** The value with deprecated fields and blank singular sub-messages left out. */
  ghost function Norm(schema: Schema, ty: Type, v: Value): Value
    decreases v, 1
  {
    match ty
    case List(item) => NormList(schema, item, v)
    case Map(_, value) => NormMap(schema, value, v)
    case Message(name) =>
      if name !in schema then v
      else
        (match schema[name]
         case Record(slots) => NormRecord(schema, slots, v)
         case ListAlias(item) => NormList(schema, item, v)
         case MapAlias(_, value) => NormMap(schema, value, v))
    case _ => v
  }

  ghost function NormList(schema: Schema, item: Type, v: Value): Value
    decreases v, 0
  {
    match v
    case VList(items) => VList(seq(|items|, i requires 0 <= i < |items| => Norm(schema, item, items[i])))
    case _ => v
  }

  ghost function NormMap(schema: Schema, value: Type, v: Value): Value
    decreases v, 0
  {
    match v
    case VMap(entries) => VMap(map key | key in entries :: Norm(schema, value, entries[key]))
    case _ => v
  }

  ghost function NormRecord(schema: Schema, slots: seq<Slot>, v: Value): Value
    decreases v, 0
  {
    match v
    case VRecord(fields) =>
      VRecord(map id | id in fields && Live(slots, id)
          && !Blank(schema, slots[id].ty, Norm(schema, slots[id].ty, fields[id]))
                :: Norm(schema, slots[id].ty, fields[id]))
    case _ => v
  }

  /** What the encoder writes of a record: the fields the schema declares and does not mark deprecated,
      unless they are blank sub-messages. */
  ghost predicate Remains(schema: Schema, slots: seq<Slot>, fields: map<nat, Value>, id: nat) {
    && id < |slots| && slots[id].Field? && !slots[id].deprecated
    && id in fields && !Blank(schema, slots[id].ty, Norm(schema, slots[id].ty, fields[id]))
  }

  lemma NormKeeps(schema: Schema, name: Name, v: Value)
    requires name in schema && schema[name].Record? && v.VRecord?
    ensures var norm, slots := Norm(schema, Message(name), v), schema[name].slots;
            && norm.VRecord?
            && (forall id: nat :: id in norm.fields <==> Remains(schema, slots, v.fields, id))
            && forall id: nat :: id in norm.fields ==> norm.fields[id] == Norm(schema, slots[id].ty, v.fields[id])
  {
    hide Blank;
  }

  /** A value without deprecated or unknown fields and without blank singular sub-messages. */
  ghost predicate Tidy(schema: Schema, ty: Type, v: Value)
    decreases v
  {
    var shape := if ty.Message? && ty.name in schema then Some(schema[ty.name]) else None;
    match v
    case VList(items) =>
      var item := if ty.List? then Some(ty.item) else if shape.Some?
          && shape.value.ListAlias? then Some(shape.value.item) else None;
      item.Some? ==> forall i :: 0 <= i < |items| ==> Tidy(schema, item.value, items[i])
    case VMap(entries) =>
      var value := if ty.Map? then Some(ty.value) else if shape.Some?
          && shape.value.MapAlias? then Some(shape.value.value) else None;
      value.Some? ==> forall key :: key in entries ==> Tidy(schema, value.value, entries[key])
    case VRecord(fields) =>
      shape.Some? && shape.value.Record? ==>
        forall id :: id in fields ==>
          && Live(shape.value.slots, id)
          && !Blank(schema, shape.value.slots[id].ty, fields[id])
          && Tidy(schema, shape.value.slots[id].ty, fields[id])
    case _ => true
  }

  /** Nothing is left out of a tidy value, and something of every other one. */
  lemma {:induction false} NormTidy(schema: Schema, ty: Type, v: Value)
    ensures Tidy(schema, ty, v) <==> Norm(schema, ty, v) == v
    decreases v
  {
    match v {
      case VList(items) =>
        if ty.List? || (ty.Message? && ty.name in schema && schema[ty.name].ListAlias?) {
          var item := if ty.List? then ty.item else schema[ty.name].item;
          forall i | 0 <= i < |items|
            ensures Tidy(schema, item, items[i]) <==> Norm(schema, item, items[i]) == items[i]
          {
            NormTidy(schema, item, items[i]);
          }
          assert |NormList(schema, item, v).items| == |items|;
          assert (forall i :: 0 <= i < |items| ==> NormList(schema, item, v).items[i] == items[i]) <==>
              NormList(schema, item, v).items == items;
        }
      case VMap(entries) =>
        if ty.Map? || (ty.Message? && ty.name in schema && schema[ty.name].MapAlias?) {
          var value := if ty.Map? then ty.value else schema[ty.name].value;
          forall key | key in entries
            ensures Tidy(schema, value, entries[key]) <==> Norm(schema, value, entries[key]) == entries[key]
          {
            NormTidy(schema, value, entries[key]);
          }
          assert (forall key :: key in entries ==> NormMap(schema, value, v).entries[key] == entries[key]) <==>
              NormMap(schema, value, v).entries == entries;
        }
      case VRecord(fields) =>
        if ty.Message? && ty.name in schema && schema[ty.name].Record? {
          RecordTidy(schema, schema[ty.name].slots, v);
        }
      case _ =>
    }
  }

  lemma {:induction false} RecordTidy(schema: Schema, slots: seq<Slot>, v: Value)
    requires v.VRecord?
    ensures NormRecord(schema, slots, v) == v <==>
        forall id :: id in v.fields ==>
          && Live(slots, id) && !Blank(schema, slots[id].ty, v.fields[id])
          && Tidy(schema, slots[id].ty, v.fields[id])
    decreases v, 0
  {
    var fields, norm := v.fields, NormRecord(schema, slots, v).fields;
    forall id | id in fields && Live(slots, id)
      ensures Tidy(schema, slots[id].ty, fields[id]) <==> Norm(schema, slots[id].ty, fields[id]) == fields[id]
    {
      NormTidy(schema, slots[id].ty, fields[id]);
    }
    if norm == fields {
      forall id | id in fields
        ensures Live(slots, id) && !Blank(schema, slots[id].ty, fields[id]) && Tidy(schema, slots[id].ty, fields[id])
      {
        assert id in norm && norm[id] == fields[id];
      }
    }
  }
}
