/** Encodings of values of a type: they read back, and their extent is found, whatever follows. */
module TreeReading {
  import opened Bits
  import opened Wrappers
  import opened Packing
  import opened Strings
  import opened Cells
  import opened PerfectHash
  import opened Peeling
  import opened Views
  import C = Containers
  import opened MapContainers
  import opened ContainerReading
  import opened Messages
  import opened Records
  import opened Schemas

  ghost predicate Reads(schema: Schema, ty: Type, v: Value, words: seq<u32>) {
    forall suffix {:trigger words + suffix} :: ReadObject(schema, ty, words + suffix) == Some(v)
  }

  ghost predicate Extends(schema: Schema, ty: Type, words: seq<u32>) {
    forall suffix {:trigger words + suffix} :: DetectObject(schema, ty, words + suffix) == Some(|words|)
  }

  /** A first word tagged 3 would be taken for a pointer. */
  predicate NotAPointer(words: seq<u32>) {
    words != [] && (|words| <= 3 ==> words[0] % 4 != 3)
  }

  /** The words read as the value, from a cell or behind a pointer. */
  ghost predicate ReadsAs(schema: Schema, ty: Type, v: Value, words: seq<u32>) {
    match ty
    case Bool => v.VBool? && words == [if v.b then 1 else 0]
    case Scalar(width) => |words| == width && v == VNum(words)
    case _ => NotAPointer(words) && Reads(schema, ty, v, words)
  }

  /** The words read as the value, and detection finds exactly these words. */
  ghost predicate Encodes(schema: Schema, ty: Type, v: Value, words: seq<u32>) {
    ReadsAs(schema, ty, v, words) && (!IsScalar(ty) ==> Extends(schema, ty, words))
  }

  ghost predicate EncodesKey(ty: KeyType, key: Key, words: seq<u32>) {
    match ty
    case TextKey => key.BytesKey? && |key.bytes| < MAX_LEN && words == StringWords(key.bytes)
    case ScalarKey(width) => |words| == width && key == NumKey(words)
  }

  // ----- fields

  /** The object shown by a field is followed, not confused with a pointer, and starts with its words. */
  lemma ObjectShown(words: seq<u32>, field: FieldView) returns (rest: seq<u32>)
    requires ShowsItem(field, words) && NotAPointer(words) && field.width <= 3
    ensures field.ObjectWords() == Some(words + rest)
    ensures ObjectStart(field).Some? && field.tail[ObjectStart(field).value..] == words + rest
    ensures ObjectStart(field).value == if |words| <= field.width then 0 else field.tail[0] / 4
  {
    var tail := field.tail;
    if |words| <= field.width {
      rest := tail[|words|..];
      assert words == tail[..field.width][..|words|] == tail[..|words|];
      assert tail == words + rest;
      assert tail[0] == words[0];
    } else {
      var start := tail[0] / 4;
      rest := tail[start..][|words|..];
      assert tail[start..] == tail[start..start + |words|] + rest;
    }
  }

  lemma ScalarShown(words: seq<u32>, field: FieldView)
    requires ShowsItem(field, words) && field.width == |words|
    ensures field.RawWords() == Some(words)
  {
    assert words + Zeros(0) == words;
  }

  /** A field that shows words of a value reads as the value. */
  lemma FieldReadsValue(schema: Schema, ty: Type, v: Value, words: seq<u32>, field: FieldView)
    requires ReadsAs(schema, ty, v, words) && ShowsItem(field, words) && field.width <= 3
    requires IsScalar(ty) ==> field.width == |words|
    ensures ReadField(schema, ty, field) == Some(v)
  {
    hide ReadObject, ShowsItem;
    if IsScalar(ty) {
      ScalarShown(words, field);
    } else {
      var rest := ObjectShown(words, field);
      assert ReadObject(schema, ty, words + rest) == Some(v);
    }
  }

  // ----- strings and bools

  lemma TextEncodes(schema: Schema, bytes: seq<u8>)
    requires |bytes| < MAX_LEN
    ensures Encodes(schema, Text, VBytes(bytes), StringWords(bytes))
  {
    hide StringBytes, StringDetect, StringWords;
    StringFirstWord(bytes);
    forall suffix ensures ReadObject(schema, Text, StringWords(bytes) + suffix) == Some(VBytes(bytes))
      && DetectObject(schema, Text, StringWords(bytes) + suffix) == Some(|StringWords(bytes)|)
    {
      StringRoundTrip(bytes, suffix);
    }
  }

  function BoolBytes(items: seq<Value>): (bytes: seq<u8>)
    requires forall i :: 0 <= i < |items| ==> items[i].VBool?
    ensures |bytes| == |items| && forall i :: 0 <= i < |items| ==> bytes[i] == if items[i].b then 1 else 0
  {
    seq(|items|, i requires 0 <= i < |items| => if items[i].b then 1 else 0)
  }

  lemma BoolsEncode(schema: Schema, items: seq<Value>)
    requires forall i :: 0 <= i < |items| ==> items[i].VBool?
    requires |items| < MAX_LEN
    ensures Encodes(schema, List(Bool), VList(items), StringWords(BoolBytes(items)))
  {
    hide StringBytes, StringDetect, StringWords;
    var bytes := BoolBytes(items);
    StringFirstWord(bytes);
    var words := StringWords(bytes);
    forall suffix ensures ReadObject(schema, List(Bool), words + suffix) == Some(VList(items))
      && DetectObject(schema, List(Bool), words + suffix) == Some(|words|)
    {
      StringRoundTrip(bytes, suffix);
      assert seq(|bytes|, i requires 0 <= i < |bytes| => VBool(bytes[i] != 0)) == items;
    }
  }

  // ----- lists

  /** Header of an empty list. */
  function EmptyList(item: Type): seq<u32> {
    [if item == Scalar(2) then 2 else 1]
  }

  lemma EmptyArray(schema: Schema, item: Type, words: seq<u32>)
    requires !item.Bool? && words != [] && words[0] == EmptyList(item)[0]
    ensures ReadList(schema, item, words) == Some(VList([])) && DetectList(schema, item, words) == Some(1)
  {
    hide ReadField, DetectField;
    assert NewArray(words) == Some(ArrayView(words[1..], 0, words[0]));
    assert ReadElements(schema, item, words) == [];
  }

  lemma WidthOfScalars(ws: seq<seq<u32>>, width: nat)
    requires ws != [] && 1 <= width <= 3 && forall i :: 0 <= i < |ws| ==> |ws[i]| == width
    ensures BestWidth(Lens(ws)) == width
  {
    UniformWidth(Lens(ws), width);
  }

  ghost predicate ReadAll(schema: Schema, item: Type, vs: seq<Value>, es: seq<seq<u32>>) {
    |vs| == |es| && forall i {:trigger es[i]} :: 0 <= i < |es| ==> ReadsAs(schema, item, vs[i], es[i])
  }

  lemma ScalarsUniform(schema: Schema, item: Type, vs: seq<Value>, es: seq<seq<u32>>)
    requires IsScalar(item) && ReadAll(schema, item, vs, es) && es != []
    ensures forall i :: 0 <= i < |es| ==> |es[i]| == BestWidth(Lens(es))
    ensures item.Scalar? ==> BestWidth(Lens(es)) == item.width
  {
    var width := if item.Bool? then 1 else item.width;
    assert ReadsAs(schema, item, vs[0], es[0]);
    forall i | 0 <= i < |es| ensures |es[i]| == width {
      assert ReadsAs(schema, item, vs[i], es[i]);
    }
    WidthOfScalars(es, width);
  }

  /** Elements as wide as their cells spill nothing. */
  lemma UniformLength(es: seq<seq<u32>>, width: nat)
    requires ArrayFits(es) && width == BestWidth(Lens(es)) && forall i :: 0 <= i < |es| ==> |es[i]| == width
    ensures |C.ArrayWords(es)| == 1 + |es| * width
  {
    hide BestWidth, Body;
    UniformCost(Lens(es), width, width);
    BodyCost(es, width);
  }

  /** Cells of three words make an array longer than three words. */
  lemma ArrayTag(es: seq<seq<u32>>)
    requires ArrayFits(es)
    ensures NotAPointer(C.ArrayWords(es)) && |C.ArrayWords(es)| >= 2
  {
    hide BestWidth, Cost, Body;
    ArrayHead(es, []);
    BodyCost(es, BestWidth(Lens(es)));
    assert C.ArrayWords(es) + [] == C.ArrayWords(es);
    AtLeastOnce(|es|, BestWidth(Lens(es)));
  }

  lemma AtLeastOnce(n: nat, w: nat)
    requires n >= 1
    ensures n * w >= w
  {
    assert n * w == w + (n - 1) * w;
  }

  // ----- maps

  ghost predicate EncodesKeys(ty: KeyType, keys: seq<Key>, es: seq<seq<u32>>) {
    |keys| == |es| && forall i {:trigger es[i]} :: 0 <= i < |es| ==> EncodesKey(ty, keys[i], es[i])
  }

  lemma KeysUniform(ty: KeyType, keys: seq<Key>, es: seq<seq<u32>>)
    requires ty.ScalarKey? && EncodesKeys(ty, keys, es) && es != []
    ensures forall i :: 0 <= i < |es| ==> |es[i]| == BestWidth(Lens(es))
  {
    assert EncodesKey(ty, keys[0], es[0]);
    forall i | 0 <= i < |es| ensures |es[i]| == ty.width {
      assert EncodesKey(ty, keys[i], es[i]);
    }
    WidthOfScalars(es, ty.width);
  }

  /** The entries in position order, the encodings of both halves, and the index over the keys. */
  ghost predicate ReadEntries(schema: Schema, kt: KeyType, vt: Type, keys: seq<Key>, vs: seq<Value>, ks: seq<seq<u32>>,
                              es: seq<seq<u32>>) {
    EncodesKeys(kt, keys, ks) && ReadAll(schema, vt, vs, es) && |keys| == |vs| && keys != []
  }

  ghost predicate Indexed(hash: Hash, keyBytes: seq<seq<u8>>, index: seq<u8>, positions: seq<nat>, ks: seq<seq<u32>>,
                          es: seq<seq<u32>>) {
    |index| >= 4 && |ks| == |es| == |keyBytes| && MapSized(index, ks, es) && IndexFor(hash, keyBytes, index, positions)
  }

  /** A map of at most three words has a single entry, and its header counts it. */
  lemma MapTag(hash: Hash, keyBytes: seq<seq<u8>>, index: seq<u8>, positions: seq<nat>, ks: seq<seq<u32>>,
               es: seq<seq<u32>>)
    requires Indexed(hash, keyBytes, index, positions, ks, es) && ks != []
    ensures NotAPointer(MapWords(index, ks, es)) && |MapWords(index, ks, es)| >= 2
  {
    hide BestWidth, Cost, Body, LeNat, IndexWords, PairItems, Distinct, InRange, Carries;
    var kw, vw := BestWidth(Lens(ks)), BestWidth(Lens(es));
    PairCost(ks, es, kw, vw);
    IndexHead(index, |ks|, kw, vw);
    AtLeastOnce(|ks|, kw + vw);
    assert MapWords(index, ks, es)[0] == IndexWords(index, kw, vw)[0];
    if |ks| >= 2 {
      Distribute(|ks|, kw + vw);
      AtLeastOnce(|ks| - 1, kw + vw);
    }
  }

  lemma {:induction false} CollectIs(keys: seq<Key>, vs: seq<Value>, entries: map<Key, Value>, n: nat)
    requires |keys| == |vs| && n <= |keys|
    requires forall i, j :: 0 <= i < j < |keys| ==> keys[i] != keys[j]
    requires forall i :: 0 <= i < |keys| ==> keys[i] in entries && vs[i] == entries[keys[i]]
    ensures Collect(keys[..n], vs[..n]) == map key | key in entries && key in keys[..n] :: entries[key]
  {
    if n > 0 {
      CollectIs(keys, vs, entries, n - 1);
      assert keys[..n][..n - 1] == keys[..n - 1] && vs[..n][..n - 1] == vs[..n - 1];
      assert forall key :: key in keys[..n] <==> key in keys[..n - 1] || key == keys[n - 1];
    }
  }

  /** Each entry is collected once. */
  lemma CollectAll(keys: seq<Key>, vs: seq<Value>, entries: map<Key, Value>)
    requires |keys| == |vs| && forall i, j :: 0 <= i < j < |keys| ==> keys[i] != keys[j]
    requires forall i :: 0 <= i < |keys| ==> keys[i] in entries && vs[i] == entries[keys[i]]
    requires forall key :: key in entries ==> key in keys
    ensures Collect(keys, vs) == entries
  {
    CollectIs(keys, vs, entries, |keys|);
    assert keys[..|keys|] == keys && vs[..|keys|] == vs;
  }

  lemma EmptyMapParsed(suffix: seq<u32>)
    ensures var view := NewMap(EMPTY_MAP + suffix);
            view.Some? && view.value.index.len == 0 && view.value.totalWords == 1
  {
    hide WordBytes, LeNat, BytesOfWords;
    var words := EMPTY_MAP + suffix;
    OneWord(0x5000_0000);
    BytesOfAppend(EMPTY_MAP, suffix);
    WordOfBytes(0x5000_0000);
    var data := BytesOfWords(words);
    assert data == WordBytes(0x5000_0000) + BytesOfWords(suffix);
    assert data[..4] == WordBytes(0x5000_0000);
  }

  lemma EmptyMapReads(schema: Schema, kt: KeyType, vt: Type, words: seq<u32>)
    requires NewMap(words).Some? && NewMap(words).value.index.len == 0 && NewMap(words).value.totalWords == 1
    ensures ReadMap(schema, kt, vt, words) == Some(VMap(map[])) && DetectMap(schema, kt, vt, words) == Some(1)
  {
    hide NewMap, ReadKey, ReadField, DetectKey, DetectField;
    assert ReadKeys(kt, words) == [] && ReadValues(schema, vt, words) == [];
  }

  // ----- records

  lemma RecordIsMessage(es: seq<seq<u32>>, last: nat, suffix: seq<u32>)
    requires RecordFits(es)
    ensures IsMessage(RecordWords(es, last) + suffix)
    ensures NotAPointer(RecordWords(es, last))
  {
    hide MessageBody, SectionWords, Payload, DataSize, BodySize, FieldSlot, PackWidths, Trim, Units;
    var t := Trim(es);
    if t != [] {
      var units, p := Units(t, last), Payload(Items(t));
      UnitsBehind(t, last);
      assert RecordWords(es, last) + suffix == MessageWords(units, last + |p|) + (p + suffix);
      Messages.SlotOf(units, last + |p|, p + suffix, 0);
      HeadSections(units);
      assert RecordWords(es, last)[0] == Head(units);
    }
  }

  lemma FitsSections(es: seq<seq<u32>>)
    requires RecordFits(es)
    ensures Sections(|Trim(es)|) <= 0xff
  {
  }

  function AliasType(desc: Desc): Type
    requires !desc.Record?
  {
    match desc
    case ListAlias(item) => List(item)
    case MapAlias(key, value) => Map(key, value)
  }

  /** A sub-message encoded as a single zero word is blank. */
  lemma ZeroWordIsBlank(schema: Schema, name: Name, v: Value)
    requires ReadsAs(schema, Message(name), v, [0])
    ensures Blank(schema, Message(name), v)
  {
    hide Count32, Count64, And, Shr;
    assert [0] + [] == [0];
    assert ReadObject(schema, Message(name), [0] + []) == Some(v);
    if schema[name].Record? {
      forall id: nat ensures FieldIn([0], id).None? { EmptyRecord([], id); }
    } else if schema[name].ListAlias? && schema[name].item.Bool? {
      NoBytes();
    }
  }

  lemma NoBytes()
    ensures StringBytes([0]) == Some([])
  {
    hide StringBytes;
    StringRoundTrip([], []);
    StringFirstWord([]);
    assert StringWords([]) + [] == [0];
  }
}
