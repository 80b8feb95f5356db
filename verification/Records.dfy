/** Messages together with the payloads of their fields: the complete encoding of a record, how its
    fields read back, and how far it extends. */
module Records {
  import opened Bits
  import opened Wrappers
  import opened Cells
  import opened Buffers
  import opened Views
  import opened Messages
  import opened MessageEncoder

  /** Field encodings in id order, [] for an absent field, as items behind the body. */
  function Items(es: seq<seq<u32>>): (items: seq<Item>)
    ensures |items| == |es| && Wide(items)
  {
    ItemsOf(es, 3)
  }

  /** Field j after folding: inline, or the segment in front of the payload of the later fields. */
  function PlacedUnit(es: seq<seq<u32>>, j: nat, last: nat): (unit: Unit)
    requires j < |es|
    ensures unit.Valid() && unit.Size() == |es[j]|
  {
    if |es[j]| <= 3 then InlineUnit(es[j]) else Unit([], Segment(last + |Payload(Items(es)[j..])|, |es[j]|))
  }

  function Units(es: seq<seq<u32>>, last: nat): (units: seq<Unit>)
    ensures |units| == |es| && AllValid(units)
    ensures forall j :: 0 <= j < |es| ==> units[j] == PlacedUnit(es, j, last)
  {
    seq(|es|, j requires 0 <= j < |es| => PlacedUnit(es, j, last))
  }

  /** The fields up to the last present one. */
  function Trim(es: seq<seq<u32>>): (t: seq<seq<u32>>)
    ensures t <= es
    ensures forall i :: |t| <= i < |es| ==> es[i] == []
    ensures t != [] ==> t[|t| - 1] != []
  {
    if es == [] then [] else if es[|es| - 1] != [] then es else Trim(es[..|es| - 1])
  }

  lemma UnitsBehind(es: seq<seq<u32>>, last: nat)
    ensures Behind(Units(es, last), last + |Payload(Items(es))|)
  {
    hide Payload;
    forall j | 0 <= j < |es| ensures |Payload(Items(es)[j..])| <= |Payload(Items(es))| {
      PayloadSplit(Items(es), j);
    }
  }

  /** A record put in front of `last` words. */
  function RecordWords(es: seq<seq<u32>>, last: nat): (words: seq<u32>)
    requires Sections(|Trim(es)|) <= 0xff
    ensures words != []
  {
    var t := Trim(es);
    UnitsBehind(t, last);
    if t == [] then [0] else MessageWords(Units(t, last), last + |Payload(Items(t))|) + Payload(Items(t))
  }

  ghost predicate RecordFits(es: seq<seq<u32>>) {
    Sections(|Trim(es)|) <= 0xff && DataSize(Units(Trim(es), 0)) < MAX_SIZE
  }

  /** The section counts of the record stay below 2^14. */
  ghost predicate CountsFit(es: seq<seq<u32>>, last: nat) {
    forall id {:trigger CountFits(Units(Trim(es), last), id)} :: 0 <= id < |Trim(es)| ==>
        CountFits(Units(Trim(es), last), id)
  }

  lemma SafeCounts(es: seq<seq<u32>>, last: nat)
    requires |es| <= SAFE_FIELDS
    ensures CountsFit(es, last)
  {
    CountLimitIsSharp(|Trim(es)|);
  }

  // ----- reading

  lemma {:induction false} SizeBound(es: seq<seq<u32>>, units: seq<Unit>)
    requires |units| == |es| && AllValid(units) && forall i :: 0 <= i < |es| ==> units[i].Size() == |es[i]|
    ensures BodySize(units) + |Payload(Items(es))| <= 2 * DataSize(units)
    ensures BodySize(units) <= DataSize(units) && |Payload(Items(es))| <= DataSize(units)
  {
    if es != [] {
      SizeBound(es[1..], units[1..]);
      assert Items(es)[1..] == Items(es[1..]);
    }
  }

  lemma {:induction false} SizeSplit(es: seq<seq<u32>>, units: seq<Unit>, k: nat)
    requires |units| == |es| && AllValid(units) && k <= |es| && forall i :: 0 <= i < |es| ==> units[i].Size() == |es[i]|
    ensures BodySize(units[k..]) + |Payload(Items(es)[..k])| <= DataSize(units)
    decreases k
  {
    if k == 0 {
      SizeBound(es, units);
      assert units[0..] == units && Items(es)[..0] == [];
    } else {
      SizeSplit(es[1..], units[1..], k - 1);
      assert Items(es)[..k][1..] == Items(es[1..])[..k - 1];
      assert units[1..][k - 1..] == units[k..];
    }
  }

  lemma {:induction false} SizeOnly(f: seq<Unit>, g: seq<Unit>)
    requires |f| == |g| && forall i :: 0 <= i < |f| ==> f[i].Size() == g[i].Size()
    ensures DataSize(f) == DataSize(g)
  {
    if f != [] { SizeOnly(f[1..], g[1..]); }
  }

  lemma EmptyRecord(suffix: seq<u32>, id: nat)
    ensures FieldIn([0] + suffix, id).None?
  {
    hide And, Count32, Count64, Shr;
    if id < 12 { NoBitsSet(id * 2); }
  }

  /** Exactly the fields with words are present, whatever the counts. */
  lemma RecordPresence(es: seq<seq<u32>>, last: nat, suffix: seq<u32>, id: nat)
    requires Sections(|Trim(es)|) <= 0xff
    ensures FieldIn(RecordWords(es, last) + suffix, id).Some? <==> id < |es| && es[id] != []
  {
    hide Payload, MessageWords, FieldIn, Trim;
    var t := Trim(es);
    if t == [] {
      EmptyRecord(suffix, id);
    } else {
      var units, p := Units(t, last), Payload(Items(t));
      UnitsBehind(t, last);
      FieldPresent(units, last + |p|, p + suffix, id);
      assert MessageWords(units, last + |p|) + (p + suffix) == RecordWords(es, last) + suffix;
    }
  }

  lemma EmptyLen(suffix: seq<u32>)
    ensures MessageLen([0] + suffix) == Some(1)
  {
    hide Count64, Shr;
    CountZero();
  }

  lemma {:induction false} NoBitsSet(n: nat)
    ensures Shr(0, n) == 0
  {
    if n > 0 { NoBitsSet(n - 1); }
  }

  lemma CountZero()
    ensures Count(0, 0xaaaa_aaaa) == 0
  {
  }

  // ----- extent

  lemma CountAt(es: seq<seq<u32>>, last: nat, id: nat)
    requires CountsFit(es, last) && id < |Trim(es)|
    ensures CountFits(Units(Trim(es), last), id)
  {
    hide CountFits, Trim;
  }

  lemma StartOfLast(n: nat)
    requires Sections(n) > 0
    ensures var id := Start(Sections(n) - 1); 12 <= id < n && (id - 12) / 25 == Sections(n) - 1
  {
  }

  lemma LastCountFits(es: seq<seq<u32>>, last: nat)
    requires CountsFit(es, last) && Trim(es) != []
    ensures var t := Trim(es); Sections(|t|) > 0 ==> BodySize(Units(t, last)[..Start(Sections(|t|) - 1)]) < COUNT_LIMIT
  {
    hide CountsFit, Trim, BodySize, Units, Sections;
    var t := Trim(es);
    if Sections(|t|) > 0 {
      StartOfLast(|t|);
      CountAt(es, last, Start(Sections(|t|) - 1));
    }
  }

  lemma {:induction false} TrimPayload(es: seq<seq<u32>>, k: nat)
    requires k <= |es|
    ensures Payload(Items(es)[..k]) == Payload(Items(Trim(es))[..if k <= |Trim(es)| then k else |Trim(es)|])
    decreases k
  {
    hide Payload, Trim;
    var t := Trim(es);
    if k <= |t| {
      assert Items(es)[..k] == Items(t)[..k];
    } else {
      TrimPayload(es, k - 1);
      PayloadTo(Items(es), k - 1);
    }
  }

  lemma InTrim(es: seq<seq<u32>>, id: nat)
    requires id < |es| && es[id] != []
    ensures id < |Trim(es)|
  {
  }

  // ----- what serialize_message_at leaves behind

  lemma {:induction false} UsedUnits(es: seq<seq<u32>>, last: nat)
    ensures Used(Units(es, last)) == Units(Trim(es), last)
    ensures Payload(Items(es)) == Payload(Items(Trim(es)))
  {
    hide Payload;
    if es != [] && es[|es| - 1] == [] {
      var front := es[..|es| - 1];
      UsedUnits(front, last);
      DropEmpty(es, last);
    }
  }

  lemma DropEmpty(es: seq<seq<u32>>, last: nat)
    requires es != [] && es[|es| - 1] == []
    ensures Payload(Items(es)) == Payload(Items(es[..|es| - 1]))
    ensures Units(es, last)[..|es| - 1] == Units(es[..|es| - 1], last)
  {
    hide Payload;
    var n := |es| - 1;
    assert Items(es)[..n] == Items(es[..n]) && Items(es)[..n + 1] == Items(es);
    PayloadTo(Items(es), n);
    forall j | 0 <= j < n ensures PlacedUnit(es, j, last) == PlacedUnit(es[..n], j, last) {
      PayloadTo(Items(es)[j..], n - j);
      assert Items(es)[j..][..n - j] == Items(es[..n])[j..] && Items(es)[j..][..n - j + 1] == Items(es)[j..];
    }
  }

  // ----- placing the fields, last one first

  lemma {:induction false} EmptyFront(es: seq<seq<u32>>, k: nat)
    requires k <= |es| && forall j :: 0 <= j < k ==> es[j] == []
    ensures Payload(Items(es)) == Payload(Items(es)[k..])
    decreases k
  {
    hide Payload;
    if k == 0 {
      assert Items(es)[0..] == Items(es);
    } else {
      EmptyFront(es, k - 1);
      PayloadFrom(Items(es), k - 1);
    }
  }

  /** Encoding field `id` into the empty front puts its payload, if any, in front. */
  lemma PlaceField(es: seq<seq<u32>>, id: nat, e: seq<u32>, last: nat)
    requires id < |es| && forall j :: 0 <= j <= id ==> es[j] == []
    ensures var es' := es[id := e];
            && Payload(Items(es')) == (if |e| <= 3 then [] else e) + Payload(Items(es))
            && Units(es', last) == Units(es, last)[id := if |e| <= 3 then InlineUnit(e)
                else SegmentUnit(last + |Payload(Items(es))|, last + |Payload(Items(es))| + |e|)]
  {
    hide Payload;
    var es' := es[id := e];
    EmptyFront(es, id + 1);
    EmptyFront(es', id);
    PayloadFrom(Items(es'), id);
    assert Items(es')[id + 1..] == Items(es)[id + 1..];
    forall j | 0 <= j < |es| && j != id ensures PlacedUnit(es', j, last) == PlacedUnit(es, j, last) {
      if j > id { assert Items(es')[j..] == Items(es)[j..]; }
    }
  }

  /** The fields from `id` on are placed: folded ones in their units, the others at the front. */
  ghost predicate Placing(units: seq<Unit>, es: seq<seq<u32>>, id: nat, before: seq<u32>, view: seq<u32>) {
    && id <= |es|
    && units == Units(es, |before|)
    && view == Payload(Items(es)) + before
    && forall j :: 0 <= j < id ==> es[j] == []
  }

  lemma PlacingStart(units: seq<Unit>, es: seq<seq<u32>>, before: seq<u32>)
    requires |units| == |es| && forall i :: 0 <= i < |units| ==> units[i] == EMPTY && es[i] == []
    ensures Placing(units, es, |es|, before, before)
  {
    hide Payload;
    EmptyFront(es, |es|);
    NothingBefore(Items(es)[|es|..]);
    assert Items(es)[|es|..] == [];
  }

  lemma PlacingStep(units: seq<Unit>, es: seq<seq<u32>>, id: nat, before: seq<u32>, view: seq<u32>, unit: Unit,
                    e: seq<u32>, view': seq<u32>)
    requires id < |es| == |units| && Placing(units, es, id + 1, before, view)
    requires if |e| <= 3 then unit == InlineUnit(e) && view' == view
             else unit == SegmentUnit(|view|, |view| + |e|) && view' == e + view
    ensures Placing(units[id := unit], es[id := e], id, before, view')
  {
    hide Payload, Units;
    PlaceField(es, id, e, |before|);
    assert view' == Payload(Items(es[id := e])) + before;
  }

  lemma EmptyAtId(units: seq<Unit>, es: seq<seq<u32>>, id: nat, before: seq<u32>, view: seq<u32>)
    requires id < |es| && Placing(units, es, id + 1, before, view)
    ensures |units| == |es| && es[id] == [] && es[id := []] == es && units[id := EMPTY] == units
    ensures Placing(units, es, id, before, view)
  {
    hide Payload;
  }

  lemma PlacingDone(units: seq<Unit>, es: seq<seq<u32>>, before: seq<u32>, view: seq<u32>)
    requires Placing(units, es, 0, before, view)
    ensures AllValid(units) && Behind(units, |view|) && |view| >= |before|
  {
    hide Payload;
    UnitsBehind(es, |before|);
  }

  lemma HasBody(es: seq<seq<u32>>, last: nat)
    requires Sections(|Trim(es)|) <= 0xff && Trim(es) != []
    ensures |RecordWords(es, last)| >= 2
  {
    hide Payload, MessageHeader, MessageBody;
    var t := Trim(es);
    UnitsBehind(t, last);
    var units := Units(t, last);
    BodySplit(units, |t| - 1);
    assert units[|t| - 1..] == [units[|t| - 1]];
    assert Width(units[|t| - 1]) >= 1;
  }

  lemma NothingPresent(es: seq<seq<u32>>, last: nat)
    requires Trim(es) == []
    ensures RecordFits(es) && RecordWords(es, last) == [0] && Payload(Items(es)) == []
  {
    UsedUnits(es, last);
    assert Items([]) == [];
  }

  lemma RecordWhole(es: seq<seq<u32>>, units: seq<Unit>, before: seq<u32>, view: seq<u32>, after: seq<u32>)
    requires units == Units(es, |before|) && view == Payload(Items(es)) + before
    requires Used(units) == [] ==> after == [0] + view
    requires Used(units) != [] ==>
        DataSize(Used(units)) < MAX_SIZE && Encodable(Used(units), |view|)
            && after == MessageWords(Used(units), |view|) + view
    ensures RecordFits(es) && after == RecordWords(es, |before|) + before
    ensures Used(units) == [] ==> view == before
  {
    hide Payload, MessageWords, DataSize, Trim, Used, Items, PlacedUnit, Behind;
    UsedUnits(es, |before|);
    var t := Trim(es);
    if t == [] {
      NothingPresent(es, |before|);
      assert [] + before == before;
    } else {
      UnitsBehind(t, |before|);
      SizeOnly(Units(t, |before|), Units(t, 0));
      assert after == (MessageWords(Units(t, |before|), |view|) + Payload(Items(t))) + before;
    }
  }

  lemma AllAbsent(es: seq<seq<u32>>, last: nat)
    requires Sections(|Trim(es)|) <= 0xff && forall id :: 0 <= id < |es| ==> es[id] == []
    ensures RecordWords(es, last) == [0]
  {
    hide MessageWords, Payload;
  }

  /** serialize_message_at on placed fields completes the record. */
  lemma RecordDone(units: seq<Unit>, es: seq<seq<u32>>, before: seq<u32>, view: seq<u32>, unit: Unit, after: seq<u32>)
    requires Placing(units, es, 0, before, view)
    requires AllValid(units) && Behind(units, |view|)
    requires Used(units) == [] ==> unit == SegmentUnit(|view|, |view| + 1) && after == [0] + view
    requires Used(units) != [] ==>
               && DataSize(Used(units)) < MAX_SIZE && Encodable(Used(units), |view|)
               && after == MessageWords(Used(units), |view|) + view && unit == SegmentUnit(|before|, |after|)
    ensures RecordFits(es)
    ensures Delivers(unit, RecordWords(es, |before|), before, after)
    ensures |RecordWords(es, |before|)| == 1 ==> RecordWords(es, |before|) == [0] && forall id :: 0 <= id < |es| ==>
        es[id] == []
    ensures (forall id :: 0 <= id < |es| ==> es[id] == []) ==> RecordWords(es, |before|) == [0]
  {
    hide Payload, MessageWords, DataSize;
    UsedUnits(es, |before|);
    RecordWhole(es, units, before, view, after);
    if Trim(es) != [] { HasBody(es, |before|); }
    if forall id :: 0 <= id < |es| ==> es[id] == [] { AllAbsent(es, |before|); }
  }
}
