/** The reverse-growing word buffer: encoders prepend, so a segment is addressed by its distance
    from the end of the buffer and keeps its place while the buffer grows. */
module Buffers {
  import opened Bits

  datatype Segment = Segment(pos: nat, len: nat)

  /** An encoded field: up to three words held inline, or a segment of the buffer. */
  datatype Unit = Unit(inlineWords: seq<u32>, segment: Segment) {
    predicate Valid() {
      |inlineWords| <= 3
    }

    function Size(): nat {
      if inlineWords != [] then |inlineWords| else segment.len
    }

    predicate IsEmpty() {
      Size() == 0
    }

    predicate IsSegment() {
      inlineWords == [] && segment.len != 0
    }
  }

  const EMPTY: Unit := Unit([], Segment(0, 0))

  function InlineUnit(words: seq<u32>): Unit {
    Unit(words, Segment(0, 0))
  }

  /** The unit for what was written since the buffer held `last` words. */
  function SegmentUnit(last: nat, now: nat): Unit
    requires last <= now
  {
    Unit([], Segment(now, now - last))
  }

  /** The segment lies inside a view of this length. */
  predicate Inside(seg: Segment, viewLen: nat) {
    seg.len <= seg.pos <= viewLen
  }

  function SegmentWords(seg: Segment, view: seq<u32>): (w: seq<u32>)
    requires Inside(seg, |view|)
    ensures |w| == seg.len
  {
    view[|view| - seg.pos..|view| - seg.pos + seg.len]
  }

  function UnitWords(unit: Unit, view: seq<u32>): (w: seq<u32>)
    requires unit.inlineWords == [] && unit.segment.len != 0 ==> Inside(unit.segment, |view|)
    ensures |w| == unit.Size()
  {
    if unit.inlineWords != [] then unit.inlineWords
    else if unit.segment.len == 0 then []
    else SegmentWords(unit.segment, view)
  }

  /** The contract every value encoder meets: the words of the value are held inline, or are the
      newest segment of the buffer. */
  ghost predicate Delivers(unit: Unit, words: seq<u32>, before: seq<u32>, after: seq<u32>) {
    || (1 <= |words| <= 3 && unit == InlineUnit(words) && after == before)
    || (words != [] && unit == SegmentUnit(|before|, |before| + |words|) && after == words + before)
  }

  /** Words written over a part of a sequence. */
  lemma Spliced(before: seq<u32>, words: seq<u32>, at: nat, after: seq<u32>)
    requires |after| == |before| && at + |words| <= |before|
    requires forall i | 0 <= i < |after| :: after[i] == if at <= i < at + |words| then words[i - at] else before[i]
    ensures after == before[..at] + words + before[at + |words|..]
  {
  }

  /** Prepending words, or dropping words in front of the segment, leaves its contents alone. */
  lemma SegmentSurvives(seg: Segment, view: seq<u32>, view': seq<u32>)
    requires Inside(seg, |view|) && Inside(seg, |view'|)
    requires view'[|view'| - seg.pos..] == view[|view| - seg.pos..]
    ensures SegmentWords(seg, view') == SegmentWords(seg, view)
  {
    assert SegmentWords(seg, view') == view'[|view'| - seg.pos..][..seg.len];
    assert SegmentWords(seg, view) == view[|view| - seg.pos..][..seg.len];
  }

  lemma UnitSurvivesPrepend(unit: Unit, words: seq<u32>, view: seq<u32>)
    requires unit.IsSegment() ==> Inside(unit.segment, |view|)
    ensures UnitWords(unit, words + view) == UnitWords(unit, view)
  {
    if unit.IsSegment() {
      assert (words + view)[|words| + |view| - unit.segment.pos..] == view[|view| - unit.segment.pos..];
      SegmentSurvives(unit.segment, view, words + view);
    }
  }

  class Buffer {
    var data: array<u32>
    var off: nat

    ghost predicate Valid()
      reads this
    {
      off <= data.Length
    }

    ghost function Repr(): set<object>
      reads this
    {
      {this, data}
    }

    /** The active words, front first. */
    ghost function View(): (v: seq<u32>)
      reads this, data
      requires Valid()
    {
      data[off..]
    }

    function Len(): (n: nat)
      reads this, data
      requires Valid()
      ensures n == |View()|
    {
      data.Length - off
    }

    constructor ()
      ensures Valid() && fresh(Repr()) && View() == []
    {
      data := new u32[0];
      off := 0;
    }

    constructor WithCapacity(words: nat)
      ensures Valid() && fresh(Repr()) && View() == []
    {
      data := new u32[words](_ => 0);
      off := words;
    }

    method Clear()
      requires Valid()
      modifies this
      ensures Valid() && data == old(data) && View() == []
    {
      off := data.Length;
    }

    /** Reallocates to at least `minWords` words, doubling, with the active words at the end. */
    method Grow(minWords: nat)
      requires Valid()
      modifies this
      ensures Valid() && fresh(data) && View() == old(View())
      ensures data.Length >= minWords
    {
      var activeLen := Len();
      var newWords := if data.Length < 8 then 8 else data.Length;
      while newWords < minWords
        invariant newWords >= 8 && newWords >= activeLen
        decreases minWords - newWords
      {
        newWords := newWords * 2;
      }
      var newData := new u32[newWords](_ => 0);
      var newOff := newWords - activeLen;
      forall i | 0 <= i < activeLen {
        newData[newOff + i] := data[off + i];
      }
      assert newData[newOff..] == View();
      data := newData;
      off := newOff;
    }

    /** Prepends `delta` words of unspecified content, to be overwritten by the caller. */
    method Expand(delta: nat)
      requires Valid()
      modifies Repr()
      ensures Valid() && fresh(Repr() - old(Repr()))
      ensures |View()| == delta + |old(View())| && View()[delta..] == old(View())
    {
      if off < delta {
        Grow(Len() + delta);
      }
      off := off - delta;
    }

    /** Drops `delta` words from the front. */
    method Shrink(delta: nat)
      requires Valid() && delta <= |View()|
      modifies this
      ensures Valid() && data == old(data) && View() == old(View())[delta..]
    {
      off := off + delta;
    }

    method PutWords(words: seq<u32>)
      requires Valid()
      modifies Repr()
      ensures Valid() && fresh(Repr() - old(Repr()))
      ensures View() == words + old(View())
    {
      Expand(|words|);
      ghost var tail := View()[|words|..];
      forall i | 0 <= i < |words| {
        data[off + i] := words[i];
      }
      assert View()[|words|..] == tail;
      assert View()[..|words|] == words;
      assert View() == View()[..|words|] + View()[|words|..];
    }

    /** A slice of the active words. */
    method Words(start: nat, end: nat) returns (words: seq<u32>)
      requires Valid() && start <= end <= |View()|
      ensures words == View()[start..end]
    {
      words := data[off..][start..end];
    }

    method Put(value: u32)
      requires Valid()
      modifies Repr()
      ensures Valid() && fresh(Repr() - old(Repr()))
      ensures View() == [value] + old(View())
    {
      PutWords([value]);
    }

    /** copy_within on the active words: moves [start, end) to `newStart`, as if through a copy. */
    method CopyWithin(start: nat, end: nat, newStart: nat)
      requires Valid() && start <= end <= |View()| && newStart + (end - start) <= |View()|
      modifies data
      ensures View() == old(View())[..newStart] + old(View())[start..end] + old(View())[newStart + (end - start)..]
    {
      ghost var before := View();
      var words := Words(start, end);
      forall i | 0 <= i < |words| {
        data[off + newStart + i] := words[i];
      }
      Spliced(before, words, newStart, View());
    }
  }

  /** Moves a small segment at the front of the buffer into the unit. */
  method FoldField(buffer: Buffer, unit: Unit) returns (unit': Unit)
    requires buffer.Valid() && unit.Valid() && (unit.IsSegment() ==> Inside(unit.segment, |buffer.View()|))
    modifies buffer
    ensures buffer.Valid() && buffer.data == old(buffer.data) && unit'.Valid()
    ensures unit.IsSegment() && unit.segment.len < 4 && unit.segment.pos == |old(buffer.View())| ==>
              unit' == InlineUnit(UnitWords(unit, old(buffer.View())))
                  && buffer.View() == old(buffer.View())[unit.segment.len..]
    ensures !(unit.IsSegment() && unit.segment.len < 4 && unit.segment.pos == |old(buffer.View())|) ==>
              unit' == unit && buffer.View() == old(buffer.View())
  {
    if !unit.IsSegment() || unit.segment.len >= 4 || unit.segment.pos != buffer.Len() {
      return unit;
    }
    var seg := unit.segment;
    unit' := InlineUnit(buffer.data[buffer.off..buffer.off + seg.len]);
    buffer.Shrink(seg.len);
  }
}
