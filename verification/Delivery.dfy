/** Encoded units in the buffer: they can be read back, survive what is prepended, and fold. */
module Delivery {
  import opened Bits
  import opened Buffers
  import C = Containers
  import opened Compaction

  /** A delivered unit can be read, and nothing older has moved. */
  lemma Delivered(unit: Unit, words: seq<u32>, before: seq<u32>, after: seq<u32>) returns (front: seq<u32>)
    requires Delivers(unit, words, before, after)
    ensures after == front + before
    ensures unit.Valid() && !unit.IsEmpty() && unit.Size() == |words|
        && (unit.IsSegment() ==> Inside(unit.segment, |after|))
    ensures UnitWords(unit, after) == words
  {
    if unit.IsSegment() {
      front := words;
      assert after[..|words|] == words;
    } else {
      front := [];
      assert after == [] + before;
    }
  }

  lemma UnitsSurvive(units: seq<Unit>, words: seq<u32>, view: seq<u32>)
    requires C.Readable(units, view)
    ensures C.Readable(units, words + view) && C.WordsOf(units, words + view) == C.WordsOf(units, view)
  {
    hide UnitWords;
    forall i | 0 <= i < |units| ensures UnitWords(units[i], words + view) == UnitWords(units[i], view) {
      UnitSurvivesPrepend(units[i], words, view);
    }
  }

  /** fold_field on the unit just encoded. */
  method Fold(buffer: Buffer, unit: Unit, ghost words: seq<u32>, ghost before: seq<u32>) returns (unit': Unit)
    requires buffer.Valid() && Delivers(unit, words, before, buffer.View())
    modifies buffer
    ensures buffer.Valid() && buffer.data == old(buffer.data)
    ensures if |words| <= 3 then unit' == InlineUnit(words) && buffer.View() == before
            else unit' == SegmentUnit(|before|, |before| + |words|) && buffer.View() == words + before
  {
    hide Buffer.View;
    ghost var front := Delivered(unit, words, before, buffer.View());
    unit' := FoldField(buffer, unit);
  }

  lemma FoldedReads(unit: Unit, words: seq<u32>, before: seq<u32>, after: seq<u32>)
    requires words != []
    requires if |words| <= 3 then unit == InlineUnit(words) && after == before
             else unit == SegmentUnit(|before|, |before| + |words|) && after == words + before
    ensures unit.IsSegment() ==> Inside(unit.segment, |after|)
    ensures UnitWords(unit, after) == words
  {
    if |words| > 3 { assert after[..|words|] == words; }
  }

  // ----- units collected so far

  /** The units show these words, and the view still ends with what it held before. */
  ghost predicate Held(units: seq<Unit>, ws: seq<seq<u32>>, before: seq<u32>, view: seq<u32>) {
    && |units| == |ws|
    && |before| <= |view| && view[|view| - |before|..] == before
    && C.Readable(units, view) && C.WordsOf(units, view) == ws
  }

  lemma NoneHeld(before: seq<u32>)
    ensures Held([], [], before, before)
  {
  }

  /** Held units stay held when another unit is delivered. */
  lemma HeldOn(units: seq<Unit>, ws: seq<seq<u32>>, before: seq<u32>, view: seq<u32>, unit: Unit, words: seq<u32>,
               after: seq<u32>)
    requires Held(units, ws, before, view) && Delivers(unit, words, view, after)
    ensures Held(units, ws, before, after)
  {
    hide Delivers;
    var front := Delivered(unit, words, view, after);
    UnitsSurvive(units, front, view);
    assert after[|after| - |before|..] == view[|view| - |before|..];
  }

  /** The delivered unit joins in front. */
  lemma HeldStep(units: seq<Unit>, ws: seq<seq<u32>>, before: seq<u32>, view: seq<u32>, unit: Unit, words: seq<u32>,
                 after: seq<u32>)
    requires Held(units, ws, before, view) && Delivers(unit, words, view, after)
    ensures Held([unit] + units, [words] + ws, before, after)
  {
    hide Delivers, UnitWords;
    HeldOn(units, ws, before, view, unit, words, after);
    var front := Delivered(unit, words, view, after);
    assert C.WordsOf([unit] + units, after) == [words] + ws;
  }

  /** The delivered unit, possibly folded, joins at the end. */
  lemma HeldAppend(units: seq<Unit>, ws: seq<seq<u32>>, before: seq<u32>, view: seq<u32>, unit: Unit, words: seq<u32>,
                   front: seq<u32>)
    requires Held(units, ws, before, view)
    requires (unit.IsSegment() ==> Inside(unit.segment, |front + view|)) && UnitWords(unit, front + view) == words
    ensures Held(units + [unit], ws + [words], before, front + view)
  {
    hide UnitWords;
    UnitsSurvive(units, front, view);
    assert (front + view)[|front + view| - |before|..] == view[|view| - |before|..];
    assert C.WordsOf(units + [unit], front + view) == ws + [words];
  }

  lemma HeldLength(units: seq<Unit>, ws: seq<seq<u32>>, before: seq<u32>, view: seq<u32>)
    requires Held(units, ws, before, view)
    ensures |units| == |ws|
  {
  }

  /** Encoding from the last element back keeps the segments in element order. */
  lemma InOrderStep(units: seq<Unit>, last: nat, view: seq<u32>, unit: Unit, words: seq<u32>, after: seq<u32>)
    requires InOrder(units, |view|, last) && last <= |view| && Delivers(unit, words, view, after)
    ensures InOrder([unit] + units, |after|, last) && last <= |after|
  {
    var all := [unit] + units;
    forall i, j | 0 <= i < j < |all| && all[i].IsSegment() && all[j].IsSegment()
      ensures all[j].segment.pos <= all[i].segment.pos - all[i].segment.len
    {
      assert all[j] == units[j - 1];
    }
    forall i | 0 <= i < |all| ensures all[i].Valid() && !all[i].IsEmpty() && (all[i].IsSegment() ==>
      Inside(all[i].segment, |after|) && last + all[i].segment.len <= all[i].segment.pos)
    {
      if i > 0 { assert all[i] == units[i - 1]; }
    }
  }

  lemma NoneInOrder(viewLen: nat, last: nat)
    ensures InOrder([], viewLen, last)
  {
  }
}
