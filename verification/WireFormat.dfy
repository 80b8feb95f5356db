/** The wire format as a relation between typed values and words: which words are an encoding of which
    value. */
module WireFormat {
  import opened Bits
  import opened Strings
  import opened PerfectHash
  import C = Containers
  import opened MapContainers
  import opened ContainerReading
  import opened Records
  import opened Schemas
  import opened TreeReading
  import opened MapKeys

  /** How a map was laid out: its keys as given to the index builder and in position order, their
      encodings, and the index. */
  datatype MapLayout = MapLayout(items: seq<Key>, ordered: seq<Key>, ks: seq<seq<u32>>, es: seq<seq<u32>>,
                                 keyBytes: seq<seq<u8>>, index: seq<u8>, positions: seq<nat>)

  ghost predicate LayoutOf(l: MapLayout, hash: Hash, kt: KeyType, entries: map<Key, Value>) {
    && ListsKeys(l.ordered, entries) && |l.ordered| == |l.es|
    && EncodesKeys(kt, l.ordered, l.ks)
    && Indexed(hash, l.keyBytes, l.index, l.positions, l.ks, l.es)
    && Arranged(l.items, l.keyBytes, l.positions, l.ordered)
  }

  /** The words are an encoding of the value. */
  ghost predicate EncodingOf(schema: Schema, hash: Hash, ty: Type, v: Value, words: seq<u32>)
    decreases v, 1
  {
    match ty
    case Bool => v.VBool? && words == [if v.b then 1 else 0]
    case Scalar(width) => |words| == width && v == VNum(words)
    case Text => v.VBytes? && |v.bytes| < MAX_LEN && words == StringWords(v.bytes)
    case List(item) => ListEncoding(schema, hash, item, v, words)
    case Map(kt, vt) => MapEncoding(schema, hash, kt, vt, v, words)
    case Message(name) =>
      && name in schema
      && match schema[name]
         case Record(slots) => RecordEncoding(schema, hash, slots, v, words)
         case ListAlias(item) => ListEncoding(schema, hash, item, v, words)
         case MapAlias(kt, vt) => MapEncoding(schema, hash, kt, vt, v, words)
  }

  ghost predicate ListEncoding(schema: Schema, hash: Hash, item: Type, v: Value, words: seq<u32>)
    decreases v, 0
  {
    && v.VList?
    && if item.Bool? then
         && (forall i :: 0 <= i < |v.items| ==> v.items[i].VBool?)
         && |v.items| < MAX_LEN && words == StringWords(BoolBytes(v.items))
       else if v.items == [] then words == EmptyList(item)
       else exists es {:trigger ElementsOf(schema, hash, item, v, es)} ::
              ElementsOf(schema, hash, item, v, es) && ArrayFits(es) && words == C.ArrayWords(es)
  }

  ghost predicate ElementsOf(schema: Schema, hash: Hash, item: Type, v: Value, es: seq<seq<u32>>)
    requires v.VList?
    decreases v, 0, 0
  {
    |es| == |v.items| && forall i {:trigger es[i]} :: 0 <= i < |es| ==>
        EncodingOf(schema, hash, item, v.items[i], es[i])
  }

  ghost predicate MapEncoding(schema: Schema, hash: Hash, kt: KeyType, vt: Type, v: Value, words: seq<u32>)
    decreases v, 0
  {
    && v.VMap?
    && if v.entries == map[] then words == EMPTY_MAP
       else exists l {:trigger LayoutOf(l, hash, kt, v.entries)} ::
              LayoutOf(l, hash, kt, v.entries) && EntriesOf(schema, hash, vt, v, l.ordered, l.es)
                  && words == MapWords(l.index, l.ks, l.es)
  }

  ghost predicate EntriesOf(schema: Schema, hash: Hash, vt: Type, v: Value, ordered: seq<Key>, es: seq<seq<u32>>)
    requires v.VMap? && ListsKeys(ordered, v.entries)
    decreases v, 0, 0
  {
    |es| == |ordered| && forall i {:trigger es[i]} :: 0 <= i < |es| ==>
        EncodingOf(schema, hash, vt, v.entries[ordered[i]], es[i])
  }

  ghost predicate RecordEncoding(schema: Schema, hash: Hash, slots: seq<Slot>, v: Value, words: seq<u32>)
    decreases v, 0
  {
    && v.VRecord?
    && exists es, last {:trigger FieldsOf(schema, hash, slots, v, es), CountsFit(es, last)} ::
         FieldsOf(schema, hash, slots, v, es) && RecordFits(es) && CountsFit(es, last) && words == RecordWords(es, last)
  }

  ghost predicate FieldsOf(schema: Schema, hash: Hash, slots: seq<Slot>, v: Value, es: seq<seq<u32>>)
    requires v.VRecord?
    decreases v, 0, 0
  {
    && |es| == |slots|
    && (forall id {:trigger es[id]} :: 0 <= id < |es| ==> (es[id] != [] <==> id in v.fields))
    && (forall id :: id in v.fields ==> Live(slots, id) && EncodingOf(schema, hash, slots[id].ty, v.fields[id], es[id]))
  }

  // ----- members of the format

  lemma BoolFormat(schema: Schema, hash: Hash, v: Value)
    requires v.VList? && (forall i :: 0 <= i < |v.items| ==> v.items[i].VBool?) && |v.items| < MAX_LEN
    ensures EncodingOf(schema, hash, List(Bool), v, StringWords(BoolBytes(v.items)))
  {
    hide StringWords;
  }

  lemma ListFormat(schema: Schema, hash: Hash, item: Type, v: Value, es: seq<seq<u32>>)
    requires !item.Bool? && v.VList? && v.items != [] && ElementsOf(schema, hash, item, v, es) && ArrayFits(es)
    ensures EncodingOf(schema, hash, List(item), v, C.ArrayWords(es))
  {
    hide ElementsOf, C.ArrayWords;
  }

  lemma MapFormat(schema: Schema, hash: Hash, kt: KeyType, vt: Type, v: Value, l: MapLayout)
    requires v.VMap? && LayoutOf(l, hash, kt, v.entries) && l.ordered != []
        && EntriesOf(schema, hash, vt, v, l.ordered, l.es)
    ensures EncodingOf(schema, hash, Map(kt, vt), v, MapWords(l.index, l.ks, l.es))
  {
    hide EntriesOf, MapWords, MapSized, IndexFor, EncodesKeys;
    assert l.ordered[0] in v.entries;
  }

  lemma RecordFormat(schema: Schema, hash: Hash, name: Name, v: Value, es: seq<seq<u32>>, last: nat)
    requires name in schema && schema[name].Record? && v.VRecord? && FieldsOf(schema, hash, schema[name].slots, v, es)
    requires RecordFits(es) && CountsFit(es, last)
    ensures EncodingOf(schema, hash, Message(name), v, RecordWords(es, last))
  {
    hide FieldsOf, RecordWords, RecordFits, CountsFit;
  }

  // ----- parts of the format

  lemma EncodesReads(schema: Schema, ty: Type, v: Value, words: seq<u32>)
    requires Encodes(schema, ty, v, words)
    ensures ReadsAs(schema, ty, v, words)
  {
    hide ReadsAs;
  }

  ghost function ValuesOf(v: Value, ordered: seq<Key>): (vs: seq<Value>)
    requires v.VMap? && ListsKeys(ordered, v.entries)
    ensures |vs| == |ordered| && forall i :: 0 <= i < |ordered| ==> vs[i] == v.entries[ordered[i]]
  {
    seq(|ordered|, i requires 0 <= i < |ordered| => v.entries[ordered[i]])
  }

  lemma LayoutExists(schema: Schema, hash: Hash, kt: KeyType, vt: Type, v: Value, e: seq<u32>) returns (l: MapLayout)
    requires MapEncoding(schema, hash, kt, vt, v, e) && v.entries != map[]
    ensures LayoutOf(l, hash, kt, v.entries) && EntriesOf(schema, hash, vt, v, l.ordered, l.es)
        && e == MapWords(l.index, l.ks, l.es)
    ensures l.ordered != []
  {
    hide EntriesOf, MapWords, IndexFor, MapSized, EncodesKeys;
    l :| LayoutOf(l, hash, kt, v.entries) && EntriesOf(schema, hash, vt, v, l.ordered, l.es)
        && e == MapWords(l.index, l.ks, l.es);
    var first :| first in v.entries;
    assert first in l.ordered;
  }
}
