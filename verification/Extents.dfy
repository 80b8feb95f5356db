/** Complete extents of encoded objects. A container is scanned from its last element back, and the
    scan stops at the first element that reaches past the cells. A slice is the words from a given
    start on, so a detected slice is given by its end. */
module Extents {
  import opened Bits
  import opened Wrappers
  import opened Packing
  import opened PerfectHash
  import opened Views
  import opened ContainerReading

  /** End of the slice detected in `field`, relative to the start of the field. */
  type Detector = FieldView --> Option<nat>

  ghost predicate Covers(detect: Detector, words: seq<u32>) {
    forall field: FieldView :: |field.tail| < |words| ==> detect.requires(field)
  }

  /** checked_slice_end: the end of a detected slice in the enclosing words. */
  function EndIn(words: seq<u32>, field: FieldView, detected: Option<nat>): Option<nat>
    requires |field.tail| <= |words|
  {
    match detected
    case None => None
    case Some(end) => if end <= |field.tail| then Some(|words| - |field.tail| + end) else None
  }

  function ScanBack(ends: nat --> Option<nat>, n: nat, limit: nat): Option<nat>
    requires forall i: nat :: i < n ==> ends.requires(i)
  {
    if n == 0 then Some(limit)
    else
      match ends(n - 1)
      case None => None
      case Some(end) => if end > limit then Some(end) else ScanBack(ends, n - 1, limit)
  }

  // ----- arrays

  lemma {:induction false} CellBound(i: nat, n: nat, w: nat)
    requires i < n
    ensures i * w + w <= n * w
    decreases n
  {
    Distribute(n, w);
    if i < n - 1 {
      CellBound(i, n - 1, w);
    } else {
      assert i == n - 1;
    }
  }

  function ArrayCell(words: seq<u32>, i: nat): (field: FieldView)
    requires NewArray(words).Some? && i < NewArray(words).value.len
    ensures NewArray(words).value.Field(i) == Some(field)
    ensures |field.tail| < |words| && |words| - |field.tail| == 1 + i * field.width
  {
    var view := NewArray(words).value;
    CellBound(i, view.len, view.width);
    view.Field(i).value
  }

  function ArrayEnds(words: seq<u32>, detect: Detector): (ends: nat --> Option<nat>)
    requires NewArray(words).Some? && Covers(detect, words)
    ensures forall i: nat :: i < NewArray(words).value.len ==> ends.requires(i)
  {
    (i: nat) requires i < NewArray(words).value.len && detect.requires(ArrayCell(words, i)) =>
      EndIn(words, ArrayCell(words, i), detect(ArrayCell(words, i)))
  }

  function ArrayExtent(words: seq<u32>, detect: Detector): Option<nat>
    requires Covers(detect, words)
  {
    match NewArray(words)
    case None => None
    case Some(view) => ScanBack(ArrayEnds(words, detect), view.len, 1 + view.len * view.width)
  }

  method DetectArrayWith(words: seq<u32>, detect: Detector) returns (end: Option<nat>)
    requires Covers(detect, words)
    ensures end == ArrayExtent(words, detect)
  {
    var view := NewArray(words);
    if view.None? {
      return None;
    }
    var limit := 1 + view.value.len * view.value.width;
    var index: nat := view.value.len;
    while index > 0
      invariant index <= view.value.len
      invariant ArrayExtent(words, detect) == ScanBack(ArrayEnds(words, detect), index, limit)
    {
      index := index - 1;
      var detected := detect(ArrayCell(words, index));
      var detectedEnd := EndIn(words, ArrayCell(words, index), detected);
      if detectedEnd.None? {
        return None;
      }
      if detectedEnd.value > limit {
        return detectedEnd;
      }
    }
    return Some(limit);
  }

  // ----- maps

  lemma IndexNotEmpty(data: seq<u8>)
    requires NewView(data).Some?
    ensures |NewView(data).value.data| >= 4
  {
    hide LeNat;
    var len := LeNat(data[..4]) % MAX_KEYS;
    if len >= 2 { LayoutFits(len); }
  }

  lemma MapCellsFit(words: seq<u32>)
    requires NewMap(words).Some?
    ensures var view := NewMap(words).value;
            |view.body| < |words| && view.index.len * (view.keyWidth + view.valueWidth) <= |view.body|
  {
    hide NewView, BytesOfWords;
    IndexNotEmpty(BytesOfWords(words));
  }

  lemma MapCellInside(words: seq<u32>, i: nat)
    requires NewMap(words).Some? && i < NewMap(words).value.index.len
    ensures var view := NewMap(words).value;
            && view.Key(i).Some? && |view.Key(i).value.tail| < |words|
            && view.Value(i).Some? && |view.Value(i).value.tail| < |words|
  {
    hide NewMap;
    MapCellsFit(words);
    var view := NewMap(words).value;
    CellBound(i, view.index.len, view.keyWidth + view.valueWidth);
  }

  /** Cell j of a map: the key of pair j / 2, or its value. */
  function MapCell(words: seq<u32>, j: nat): (field: FieldView)
    requires NewMap(words).Some? && j < 2 * NewMap(words).value.index.len
    ensures |field.tail| < |words|
  {
    MapCellInside(words, j / 2);
    if j % 2 == 0 then NewMap(words).value.Key(j / 2).value else NewMap(words).value.Value(j / 2).value
  }

  function MapEnds(words: seq<u32>, detectKey: Detector, detectValue: Detector): (ends: nat --> Option<nat>)
    requires NewMap(words).Some? && Covers(detectKey, words) && Covers(detectValue, words)
    ensures forall j: nat :: j < 2 * NewMap(words).value.index.len ==> ends.requires(j)
  {
    (j: nat) requires j < 2 * NewMap(words).value.index.len
                      && detectKey.requires(MapCell(words, j)) && detectValue.requires(MapCell(words, j)) =>
      EndIn(words, MapCell(words, j),
          if j % 2 == 0 then detectKey(MapCell(words, j)) else detectValue(MapCell(words, j)))
  }

  function MapExtent(words: seq<u32>, detectKey: Detector, detectValue: Detector): Option<nat>
    requires Covers(detectKey, words) && Covers(detectValue, words)
  {
    match NewMap(words)
    case None => None
    case Some(view) => ScanBack(MapEnds(words, detectKey, detectValue), 2 * view.index.len, view.totalWords)
  }

  method DetectMapWith(words: seq<u32>, detectKey: Detector, detectValue: Detector) returns (end: Option<nat>)
    requires Covers(detectKey, words) && Covers(detectValue, words)
    ensures end == MapExtent(words, detectKey, detectValue)
  {
    hide NewMap, EndIn, MapCell;
    var view := NewMap(words);
    if view.None? {
      return None;
    }
    var limit := view.value.totalWords;
    var index: nat := view.value.index.len;
    while index > 0
      invariant index <= view.value.index.len
      invariant MapExtent(words, detectKey, detectValue)
          == ScanBack(MapEnds(words, detectKey, detectValue), 2 * index, limit)
    {
      index := index - 1;
      var value := MapCell(words, 2 * index + 1);
      var detectedEnd := EndIn(words, value, detectValue(value));
      if detectedEnd.None? {
        return None;
      }
      if detectedEnd.value > limit {
        return detectedEnd;
      }
      var key := MapCell(words, 2 * index);
      detectedEnd := EndIn(words, key, detectKey(key));
      if detectedEnd.None? {
        return None;
      }
      if detectedEnd.value > limit {
        return detectedEnd;
      }
    }
    return Some(limit);
  }

  // ----- messages

  /** Detectors of the fields of a message that can reach past the body. */
  type FieldDetector = (nat, FieldView) --> Option<nat>

  ghost predicate CoversFields(detect: FieldDetector, words: seq<u32>, count: nat) {
    forall id: nat, field: FieldView :: id < count && |field.tail| < |words| ==> detect.requires(id, field)
  }

  lemma FieldShorter(words: seq<u32>, id: nat)
    requires FieldIn(words, id).Some?
    ensures |FieldIn(words, id).value.tail| < |words|
  {
  }

  /** Absent fields, and fields without payload, end with the body. */
  function MessageEnds(words: seq<u32>, count: nat, needs: nat -> bool,
                       detect: FieldDetector): (ends: nat --> Option<nat>)
    requires CoversFields(detect, words, count)
    ensures forall id: nat :: id < count ==> ends.requires(id)
  {
    (id: nat) requires id < count =>
      match FieldIn(words, id)
      case None => Some(0)
      case Some(field) => FieldShorter(words, id); if needs(id) then EndIn(words, field, detect(id, field)) else Some(0)
  }

  /** The generated DetectLen of a message with `count` field numbers. */
  function MessageExtent(words: seq<u32>, count: nat, needs: nat -> bool, detect: FieldDetector): Option<nat>
    requires CoversFields(detect, words, count)
  {
    match MessageLen(words)
    case None => None
    case Some(len) => ScanBack(MessageEnds(words, count, needs, detect), count, len)
  }

  method DetectMessageLen(words: seq<u32>, count: nat, needs: nat -> bool,
                          detect: FieldDetector) returns (end: Option<nat>)
    requires CoversFields(detect, words, count)
    ensures end == MessageExtent(words, count, needs, detect)
  {
    var view := MessageLen(words);
    if view.None? {
      return None;
    }
    var id: nat := count;
    while id > 0
      invariant id <= count
      invariant MessageExtent(words, count, needs, detect)
          == ScanBack(MessageEnds(words, count, needs, detect), id, view.value)
    {
      id := id - 1;
      var field := FieldIn(words, id);
      if needs(id) && field.Some? {
        FieldShorter(words, id);
        var detectedEnd := EndIn(words, field.value, detect(id, field.value));
        if detectedEnd.None? {
          return None;
        }
        if detectedEnd.value > view.value {
          return detectedEnd;
        }
      }
    }
    return view;
  }
}
