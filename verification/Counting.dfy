/** The cells in front of a section are counted in 14 bits. A bound on that count from the types of
    the present fields, and the values all of whose messages stay within it. */
module Counting {
  import opened Bits
  import opened Buffers
  import opened Messages
  import opened Records
  import opened Schemas

  /** Words a present field takes in the body, at most. */
  function CellWidth(slots: seq<Slot>, id: nat): (w: nat)
    ensures w <= 3
  {
    if !Live(slots, id) then 0
    else if slots[id].ty.Bool? then 1
    else if slots[id].ty.Scalar? then slots[id].ty.width
    else 3
  }

  /** Cells of the present fields below n, at most. */
  function CellBound(slots: seq<Slot>, present: set<nat>, n: nat): (bound: nat)
    ensures bound <= 3 * n
  {
    if n == 0 then 0 else CellBound(slots, present, n - 1) + if n - 1 in present then CellWidth(slots, n - 1) else 0
  }

  /** The present fields leave every section count in front of one of them below 2^14. */
  predicate Roomy(slots: seq<Slot>, present: set<nat>) {
    forall id :: id in present && id >= 12 ==> CellBound(slots, present, Start((id - 12) / 25)) < COUNT_LIMIT
  }

  lemma {:induction false} BoundMonotone(slots: seq<Slot>, present: set<nat>, n: nat, m: nat)
    requires n <= m
    ensures CellBound(slots, present, n) <= CellBound(slots, present, m)
    decreases m
  {
    if n < m { BoundMonotone(slots, present, n, m - 1); }
  }

  /** Words of present fields, scalars as long as their type. */
  ghost predicate CellsOfTypes(slots: seq<Slot>, present: set<nat>, es: seq<seq<u32>>) {
    forall id {:trigger es[id]} :: 0 <= id < |es| && es[id] != [] ==>
      && id in present && Live(slots, id)
      && (IsScalar(slots[id].ty) ==> |es[id]| == CellWidth(slots, id))
  }

  lemma NoBody(units: seq<Unit>)
    requires units == []
    ensures AllValid(units) && BodySize(units) == 0
  {
  }

  /** One more field adds its cell. */
  lemma BodyStepUp(es: seq<seq<u32>>, last: nat, n: nat)
    requires 0 < n <= |es|
    ensures BodySize(Units(es, last)[..n]) == BodySize(Units(es, last)[..n - 1]) + if |es[n - 1]| <= 3 then |es[n - 1]|
        else 1
  {
    hide PlacedUnit;
    var units := Units(es, last);
    BodySplit(units[..n], n - 1);
    assert units[..n][..n - 1] == units[..n - 1] && units[..n][n - 1..] == [units[n - 1]];
    assert [units[n - 1]][1..] == [];
    UnitWidth(es, n - 1, last);
  }

  lemma {:induction false} BodyBound(slots: seq<Slot>, present: set<nat>, es: seq<seq<u32>>, last: nat, n: nat)
    requires CellsOfTypes(slots, present, es) && n <= |es|
    ensures BodySize(Units(es, last)[..n]) <= CellBound(slots, present, n)
    decreases n
  {
    hide PlacedUnit, BodySize;
    if n > 0 {
      BodyBound(slots, present, es, last, n - 1);
      BodyStepUp(es, last, n);
      assert es[n - 1] == es[n - 1];
    } else {
      NoBody(Units(es, last)[..0]);
    }
  }

  lemma UnitWidth(es: seq<seq<u32>>, j: nat, last: nat)
    requires j < |es|
    ensures Width(PlacedUnit(es, j, last)) == if |es[j]| <= 3 then |es[j]| else 1
  {
  }

  lemma TrimCells(slots: seq<Slot>, present: set<nat>, es: seq<seq<u32>>)
    requires CellsOfTypes(slots, present, es)
    ensures CellsOfTypes(slots, present, Trim(es))
  {
    hide Trim, CellWidth;
    var t := Trim(es);
    forall id | 0 <= id < |t| && t[id] != []
      ensures id in present && Live(slots, id) && (IsScalar(slots[id].ty) ==> |t[id]| == CellWidth(slots, id))
    {
      assert es[id] == t[id];
    }
  }

  lemma LastPresent(slots: seq<Slot>, present: set<nat>, t: seq<seq<u32>>, top: nat)
    requires CellsOfTypes(slots, present, t) && top < |t| && t[top] != []
    ensures top in present
  {
  }

  /** Within the bound, no section count of the record overflows. */
  lemma RoomyFits(slots: seq<Slot>, present: set<nat>, es: seq<seq<u32>>, last: nat)
    requires CellsOfTypes(slots, present, es) && Roomy(slots, present)
    ensures CountsFit(es, last)
  {
    hide Trim, BodySize, CellsOfTypes, CellBound;
    var t := Trim(es);
    TrimCells(slots, present, es);
    forall id | 0 <= id < |t| ensures CountFits(Units(t, last), id) {
      if id >= 12 {
        var start, top := Start((id - 12) / 25), |t| - 1;
        BodyBound(slots, present, t, last, start);
        BoundMonotone(slots, present, start, Start((top - 12) / 25));
        LastPresent(slots, present, t, top);
      }
    }
  }

  /** The widest words of the present fields. */
  function Widest(slots: seq<Slot>, present: set<nat>): (es: seq<seq<u32>>)
    ensures |es| == |slots|
    ensures forall id :: 0 <= id < |es| ==> es[id] == if id in present then seq(CellWidth(slots, id), _ => 1) else []
  {
    seq(|slots|, id requires 0 <= id => if id in present then seq(CellWidth(slots, id), _ => 1) else [])
  }

  lemma {:induction false} WidestBody(slots: seq<Slot>, present: set<nat>, es: seq<seq<u32>>, last: nat, n: nat)
    requires n <= |es| && es <= Widest(slots, present)
    ensures BodySize(Units(es, last)[..n]) == CellBound(slots, present, n)
    decreases n
  {
    hide Widest, PlacedUnit, BodySize, CellWidth;
    if n > 0 {
      WidestBody(slots, present, es, last, n - 1);
      BodyStepUp(es, last, n);
      assert es[n - 1] == Widest(slots, present)[n - 1];
    } else {
      NoBody(Units(es, last)[..0]);
    }
  }

  /** Words of exactly these fields. */
  ghost predicate WordsOfFields(slots: seq<Slot>, present: set<nat>, es: seq<seq<u32>>) {
    && |es| == |slots| && CellsOfTypes(slots, present, es)
    && forall id {:trigger es[id]} :: 0 <= id < |es| ==> (es[id] != [] <==> id in present)
  }

  /** The bound cannot be relaxed: it holds exactly when no record of these fields overflows a count. */
  lemma RoomyIsExact(slots: seq<Slot>, present: set<nat>, last: nat)
    requires forall id :: id in present ==> Live(slots, id)
    ensures Roomy(slots, present) <==> forall es: seq<seq<u32>> :: WordsOfFields(slots, present, es) ==>
        CountsFit(es, last)
  {
    hide CountsFit, Roomy, Trim;
    if Roomy(slots, present) {
      forall es: seq<seq<u32>> | WordsOfFields(slots, present, es) ensures CountsFit(es, last) {
        RoomyFits(slots, present, es, last);
      }
    } else {
      var es := Widest(slots, present);
      assert WordsOfFields(slots, present, es);
      if CountsFit(es, last) { WidestFits(slots, present, last); }
    }
  }

  lemma FieldFits(slots: seq<Slot>, present: set<nat>, last: nat, id: nat)
    requires id in present && id >= 12 && Live(slots, id) && CountsFit(Widest(slots, present), last)
    ensures CellBound(slots, present, Start((id - 12) / 25)) < COUNT_LIMIT
  {
    hide BodySize, Trim, Widest, Units;
    var es := Widest(slots, present);
    var t := Trim(es);
    assert es[id] != [];
    InTrim(es, id);
    assert CountFits(Units(t, last), id);
    WidestBody(slots, present, t, last, Start((id - 12) / 25));
  }

  lemma WidestFits(slots: seq<Slot>, present: set<nat>, last: nat)
    requires (forall id :: id in present ==> Live(slots, id)) && CountsFit(Widest(slots, present), last)
    ensures Roomy(slots, present)
  {
    hide CellBound, Widest, CountsFit;
    forall id | id in present && id >= 12 ensures CellBound(slots, present, Start((id - 12) / 25)) < COUNT_LIMIT {
      FieldFits(slots, present, last, id);
    }
  }

  // ----- simple conditions

  function Below(present: set<nat>, n: nat): set<nat> {
    set id | id in present && id < n
  }

  lemma {:induction false} BoundByPresent(slots: seq<Slot>, present: set<nat>, n: nat)
    ensures CellBound(slots, present, n) <= 3 * |Below(present, n)|
    decreases n
  {
    if n > 0 {
      BoundByPresent(slots, present, n - 1);
      if n - 1 in present {
        assert Below(present, n) == Below(present, n - 1) + {n - 1};
      } else {
        assert Below(present, n) == Below(present, n - 1);
      }
    }
  }

  lemma Fewer(a: set<nat>, b: set<nat>, x: nat)
    requires a <= b && x in b && x !in a
    ensures |a| < |b|
  {
    assert a <= b - {x};
    SubsetSize(a, b - {x});
  }

  lemma {:induction false} SubsetSize(a: set<nat>, b: set<nat>)
    requires a <= b
    ensures |a| <= |b|
    decreases a
  {
    if x :| x in a { SubsetSize(a - {x}, b - {x}); }
  }

  /** At most 5462 present fields always stay within the bound, whatever their numbers. */
  lemma FewFieldsRoomy(slots: seq<Slot>, present: set<nat>)
    requires |present| <= SAFE_FIELDS
    ensures Roomy(slots, present)
  {
    forall id | id in present && id >= 12 ensures CellBound(slots, present, Start((id - 12) / 25)) < COUNT_LIMIT {
      var start := Start((id - 12) / 25);
      BoundByPresent(slots, present, start);
      Fewer(Below(present, start), present, id);
    }
  }

  /** So do fields with numbers up to 5462. */
  lemma LowFieldsRoomy(slots: seq<Slot>, present: set<nat>)
    requires forall id :: id in present ==> id < SAFE_FIELDS
    ensures Roomy(slots, present)
  {
  }

  lemma {:induction false} BoundSubset(slots: seq<Slot>, some: set<nat>, present: set<nat>, n: nat)
    requires some <= present
    ensures CellBound(slots, some, n) <= CellBound(slots, present, n)
    decreases n
  {
    if n > 0 { BoundSubset(slots, some, present, n - 1); }
  }

  /** Leaving fields out keeps the bound. */
  lemma RoomySubset(slots: seq<Slot>, some: set<nat>, present: set<nat>)
    requires some <= present && Roomy(slots, present)
    ensures Roomy(slots, some)
  {
    forall id | id in some && id >= 12 ensures CellBound(slots, some, Start((id - 12) / 25)) < COUNT_LIMIT {
      BoundSubset(slots, some, present, Start((id - 12) / 25));
    }
  }

  // ----- values

  function LiveFields(slots: seq<Slot>, fields: map<nat, Value>): set<nat> {
    set id | id in fields && Live(slots, id)
  }

  /** No section count of any message in the value can overflow. */
  predicate Countable(schema: Schema, ty: Type, v: Value)
    decreases v
  {
    match v
    case VList(items) =>
      var item := ItemType(schema, ty);
      item.Some? ==> forall i :: 0 <= i < |items| ==> Countable(schema, item.value, items[i])
    case VMap(entries) =>
      var entry := EntryType(schema, ty);
      entry.Some? ==> forall key :: key in entries ==> Countable(schema, entry.value.1, entries[key])
    case VRecord(fields) =>
      var slots := RecordSlots(schema, ty);
      slots.Some? ==>
        && Roomy(slots.value, LiveFields(slots.value, fields))
        && forall id :: id in fields && Live(slots.value, id) ==> Countable(schema, slots.value[id].ty, fields[id])
    case _ => true
  }

  /** No section count of any message of the schema can overflow. */
  predicate Safe(schema: Schema) {
    forall name :: name in schema && schema[name].Record? ==> |schema[name].slots| <= SAFE_FIELDS
  }

  /** Every value of a schema whose messages have at most 5462 field numbers qualifies. */
  lemma {:induction false} SafeCountable(schema: Schema, ty: Type, v: Value)
    requires Safe(schema)
    ensures Countable(schema, ty, v)
    decreases v
  {
    hide Roomy;
    match v {
      case VList(items) =>
        if ItemType(schema, ty).Some? {
          forall i | 0 <= i < |items| ensures Countable(schema, ItemType(schema, ty).value, items[i]) {
            SafeCountable(schema, ItemType(schema, ty).value, items[i]);
          }
        }
      case VMap(entries) =>
        if EntryType(schema, ty).Some? {
          forall key | key in entries ensures Countable(schema, EntryType(schema, ty).value.1, entries[key]) {
            SafeCountable(schema, EntryType(schema, ty).value.1, entries[key]);
          }
        }
      case VRecord(fields) =>
        if RecordSlots(schema, ty).Some? {
          var slots := RecordSlots(schema, ty).value;
          LowFieldsRoomy(slots, LiveFields(slots, fields));
          forall id | id in fields && Live(slots, id) ensures Countable(schema, slots[id].ty, fields[id]) {
            SafeCountable(schema, slots[id].ty, fields[id]);
          }
        }
      case _ =>
    }
  }

  /** What an encoder leaves out does not make a value overflow. */
  lemma {:induction false} CountableNorm(schema: Schema, ty: Type, v: Value)
    requires Countable(schema, ty, v)
    ensures Countable(schema, ty, Norm(schema, ty, v))
    decreases v
  {
    hide Roomy, Blank;
    match v {
      case VList(items) =>
        if ItemType(schema, ty).Some? {
          var item := ItemType(schema, ty).value;
          NormShape(schema, ty, v);
          forall i | 0 <= i < |items| ensures Countable(schema, item, Norm(schema, item, items[i])) {
            CountableNorm(schema, item, items[i]);
          }
        }
      case VMap(entries) =>
        if EntryType(schema, ty).Some? {
          var vt := EntryType(schema, ty).value.1;
          NormShape(schema, ty, v);
          forall key | key in entries ensures Countable(schema, vt, Norm(schema, vt, entries[key])) {
            CountableNorm(schema, vt, entries[key]);
          }
        }
      case VRecord(fields) =>
        if RecordSlots(schema, ty).Some? {
          var slots := RecordSlots(schema, ty).value;
          NormShape(schema, ty, v);
          var kept := NormRecord(schema, slots, v).fields;
          RoomySubset(slots, LiveFields(slots, kept), LiveFields(slots, fields));
          forall id | id in kept && Live(slots, id) ensures Countable(schema, slots[id].ty, kept[id]) {
            CountableNorm(schema, slots[id].ty, fields[id]);
          }
        }
      case _ =>
    }
  }

  lemma NormShape(schema: Schema, ty: Type, v: Value)
    ensures ItemType(schema, ty).Some? ==> Norm(schema, ty, v) == NormList(schema, ItemType(schema, ty).value, v)
    ensures EntryType(schema, ty).Some? ==> Norm(schema, ty, v) == NormMap(schema, EntryType(schema, ty).value.1, v)
    ensures RecordSlots(schema, ty).Some? ==>
        Norm(schema, ty, v) == NormRecord(schema, RecordSlots(schema, ty).value, v)
  {
    hide NormList, NormMap, NormRecord;
  }
}
