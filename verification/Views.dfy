/** Zero-copy readers over encoded words. A view borrows everything that follows its first word, so
    slices are suffixes of the enclosing words. */
module Views {
  import opened Bits
  import opened Wrappers
  import opened Packing
  import opened Strings
  import opened PerfectHash

  /** One field: the words from its cell on, and the width of the cell. */
  datatype FieldView = FieldView(tail: seq<u32>, width: nat) {
    function RawWords(): Option<seq<u32>> {
      if width <= |tail| then Some(tail[..width]) else None
    }

    /** The object of the field: behind a pointer when the first word is tagged 3, else in place. */
    function ObjectWords(): Option<seq<u32>> {
      if tail == [] then None
      else if tail[0] % 4 == 3 then (if tail[0] / 4 <= |tail| then Some(tail[tail[0] / 4..]) else None)
      else Some(tail)
    }
  }

  // ----- messages

  function Count32(v: nat): nat {
    Count(v, 0xaaaa_aaaa)
  }

  function Count64(v: nat): nat {
    Count(v, 0xaaaa_aaaa_aaaa_aaaa)
  }

  function WordAt64(words: seq<u32>, i: nat): nat
    requires i + 2 <= |words|
  {
    words[i] + TWO32 * words[i + 1]
  }

  function BodyOffset(head: u32): nat {
    1 + head % 0x100 * 2
  }

  /** MessageView::new: the header must fit. */
  predicate IsMessage(words: seq<u32>) {
    words != [] && BodyOffset(words[0]) <= |words|
  }

  /** Position of a present field in the body, and its width. */
  function FieldSlot(words: seq<u32>, id: nat): Option<(nat, nat)>
    requires IsMessage(words)
  {
    if id < 12 then
      var v := words[0] / 0x100;
      var width := Shr(v, id * 2) % 4;
      if width == 0 then None else Some((Count32(And(v, Pow2(id * 2) - 1)), width))
    else
      var section, bit := (id - 12) / 25, (id - 12) % 25;
      if section >= words[0] % 0x100 then None
      else
        var vec := WordAt64(words, 1 + section * 2);
        var width := Shr(vec, bit * 2) % 4;
        if width == 0 then None else Some((Count64(And(vec, Pow2(bit * 2) - 1)) + Shr(vec, 50), width))
  }

  /** MessageView::field */
  function FieldIn(words: seq<u32>, id: nat): Option<FieldView> {
    if !IsMessage(words) then None
    else
      match FieldSlot(words, id)
      case None => None
      case Some((off, width)) =>
        if BodyOffset(words[0]) + off <= |words| then Some(FieldView(words[BodyOffset(words[0]) + off..], width))
            else None
  }

  /** MessageView::detect_len: header and body cells, without referenced payloads. */
  function MessageLen(words: seq<u32>): Option<nat> {
    if words == [] then None
    else
      var section := words[0] % 0x100;
      if section == 0 then
        var tail := 1 + Count32(words[0]);
        if tail <= |words| then Some(tail) else None
      else if BodyOffset(words[0]) > |words| then None
      else
        var sec := WordAt64(words, BodyOffset(words[0]) - 2);
        var tail := BodyOffset(words[0]) + Count64(sec * 0x4000 % TWO64) + Shr(sec, 50);
        if tail <= |words| then Some(tail) else None
  }

  // ----- arrays

  datatype ArrayView = ArrayView(body: seq<u32>, len: nat, width: nat) {
    function Field(index: nat): Option<FieldView> {
      if index >= len || index * width > |body| then None else Some(FieldView(body[index * width..], width))
    }
  }

  function NewArray(words: seq<u32>): Option<ArrayView> {
    if words == [] then None
    else
      var len, width := words[0] / 4, words[0] % 4;
      if width == 0 || len * width > |words| - 1 then None else Some(ArrayView(words[1..], len, width))
  }

  // ----- maps

  datatype MapView = MapView(index: HashView, body: seq<u32>, keyWidth: nat, valueWidth: nat, totalWords: nat) {
    function PairTail(i: nat): Option<seq<u32>> {
      var start := i * (keyWidth + valueWidth);
      if i >= index.len || start + keyWidth > |body| then None else Some(body[start..])
    }

    function Key(i: nat): Option<FieldView> {
      match PairTail(i)
      case None => None
      case Some(tail) => Some(FieldView(tail, keyWidth))
    }

    function Value(i: nat): Option<FieldView> {
      match PairTail(i)
      case None => None
      case Some(tail) => if keyWidth <= |tail| then Some(FieldView(tail[keyWidth..], valueWidth)) else None
    }
  }

  function MapFrom(words: seq<u32>, index: HashView, kw: nat, vw: nat): Option<MapView> {
    var offset, cells := WordSize(|index.data|), index.len * (kw + vw);
    if offset > |words| || cells > |words| - offset then None
    else Some(MapView(index, words[offset..], kw, vw, offset + cells))
  }

  function NewMap(words: seq<u32>): Option<MapView> {
    if words == [] then None
    else
      var kw, vw := words[0] / 0x4000_0000 % 4, words[0] / 0x1000_0000 % 4;
      if kw == 0 || vw == 0 then None
      else
        match NewView(BytesOfWords(words))
        case None => None
        case Some(index) => MapFrom(words, index, kw, vw)
  }

  /** Candidate position from the index, then the stored key decides. */
  function FindWith(view: MapView, hash: Hash, key: seq<u8>, matches: FieldView -> bool): Option<nat> {
    match Locate(view.index, hash, key)
    case None => None
    case Some(pos) =>
      if pos < 0 then None
      else
        match view.Key(pos)
        case None => None
        case Some(field) => if matches(field) then Some(pos) else None
  }

  predicate HoldsBytes(field: FieldView, key: seq<u8>) {
    match field.ObjectWords()
    case None => false
    case Some(words) => StringBytes(words) == Some(key)
  }

  /** MapView::find_bytes, as the position of the pair found. */
  function FindBytes(view: MapView, hash: Hash, key: seq<u8>): Option<nat> {
    FindWith(view, hash, key, (field: FieldView) => HoldsBytes(field, key))
  }

  /** MapView::find_scalar for a key of these words. */
  function FindScalar(view: MapView, hash: Hash, key: seq<u32>): Option<nat> {
    FindWith(view, hash, BytesOfWords(key), (field: FieldView) => field.RawWords() == Some(key))
  }
}
