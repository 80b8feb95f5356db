/** The compressor and decompressor as written: raw 8-byte and 4-byte stores that spill past the
    bytes they mean to write, into buffers sized so that no store leaves them. */
module Compression {
  import opened Bits
  import opened Wrappers
  import opened Packing
  import opened Runs

  // ----- compressing

  /** The byte as i8. */
  function Signed(b: u8): int {
    if b < 0x80 then b else b - 0x100
  }

  /** An arithmetic right shift fixes exactly 0x00 and 0xff. */
  lemma ShiftTest(b: u8)
    ensures Signed(b) == Signed(b) / 2 <==> IsFill(b)
  {
  }

  lemma {:induction false} FillExtend(x: seq<u8>, pos: nat, b: u8, limit: nat, k: nat)
    requires pos <= |x| && k <= FillLen(x, pos, b, limit)
    ensures FillLen(x, pos, b, limit) == k <==> k == limit || pos + k == |x| || x[pos + k] != b
    decreases k
  {
    if k > 0 { FillExtend(x, pos + 1, b, limit - 1, k - 1); }
  }

  lemma {:induction false} LiteralExtend(x: seq<u8>, pos: nat, limit: nat, k: nat)
    requires pos <= |x| && k <= LiteralLen(x, pos, limit)
    ensures LiteralLen(x, pos, limit) == k <==> k == limit || pos + k == |x| || IsFill(x[pos + k])
    decreases k
  {
    if k > 0 { LiteralExtend(x, pos + 1, limit - 1, k - 1); }
  }

  /** Advances over the next run and returns its mark. */
  method PickRun(src: seq<u8>, pos: nat) returns (mark: nat, pos': nat)
    requires pos < |src|
    ensures mark == RunMark(src, pos) && pos' == pos + RunLen(src, pos)
  {
    var start := pos;
    var first := src[start];
    pos' := start + 1;
    ShiftTest(first);
    var fi := Signed(first);
    if fi == fi / 2 {
      FillExtend(src, start, first, 4, 1);
      while pos' < |src| && pos' - start < 4 && src[pos'] == first
        invariant start < pos' <= |src| && pos' - start <= FillLen(src, start, first, 4)
      {
        FillExtend(src, start, first, 4, pos' - start);
        pos' := pos' + 1;
      }
      FillExtend(src, start, first, 4, pos' - start);
      mark := 8 + first / 4 % 2 * 4 + (pos' - start - 1);
    } else {
      LiteralExtend(src, start, 7, 0);
      while pos' < |src| && pos' - start < 7 && src[pos'] != 0 && src[pos'] != 0xff
        invariant start < pos' <= |src| && pos' - start <= LiteralLen(src, start, 7)
      {
        LiteralExtend(src, start, 7, pos' - start);
        pos' := pos' + 1;
      }
      LiteralExtend(src, start, 7, pos' - start);
      mark := pos' - start;
    }
  }

  /** Writes src[start..end] at `off`. With 8 source bytes left it stores 8 bytes and lets the
      surplus spill. */
  method EmitRun(src: seq<u8>, start: nat, end: nat, dst: array<u8>, off: nat) returns (off': nat)
    requires start <= end <= |src| && end - start <= 7
    requires if start + 8 <= |src| && start < end then off + 8 <= dst.Length else off + (end - start) <= dst.Length
    modifies dst
    ensures off' == off + (end - start) <= dst.Length
    ensures dst[..off] == old(dst[..off]) && dst[off..off'] == src[start..end]
  {
    var len := end - start;
    if len == 0 {
      return off;
    }
    if start + 8 <= |src| {
      forall i | 0 <= i < 8 {
        dst[off + i] := src[start + i];
      }
    } else {
      forall i | 0 <= i < len {
        dst[off + i] := src[start + i];
      }
    }
    off' := off + len;
  }

  /** Half bytes `h` spent before `pos` leave room for the rest; one may be borrowed in front of a
      fill run, which pays it back. */
  ghost predicate Solvent(x: seq<u8>, pos: nat, h: nat)
    requires pos <= |x|
  {
    h + Budget(|x| - pos) <= Budget(|x|) + (if pos < |x| && IsFill(x[pos]) then 1 else 0)
  }

  lemma RunStaysSolvent(x: seq<u8>, pos: nat, h: nat)
    requires pos < |x| && pos + RunLen(x, pos) < |x| && Solvent(x, pos, h)
    ensures Solvent(x, pos + RunLen(x, pos), h + 2 * |RunBytes(x, pos)| + 1)
  {
    hide RunLen, RunBytes, IsFill, Budget;
    RunFacts(x, pos);
    BudgetGrows(|x| - pos - RunLen(x, pos), RunLen(x, pos));
  }

  /** Where a literal run starts with 8 source bytes left, the 8-byte store fits, its mark paid. */
  lemma StoreFits(x: seq<u8>, pos: nat, h: nat, off: nat)
    requires pos + 8 <= |x| && !IsFill(x[pos]) && Solvent(x, pos, h) && 2 * off <= h + 2
    ensures off + 8 <= BodyCapacity(|x|)
  {
    hide Budget;
    BudgetGrows(8, |x| - pos - 8);
    BudgetEight();
    BudgetIsCapacity(|x|);
  }

  lemma BudgetEight()
    ensures Budget(8) == 18
  {
  }

  lemma EncodePair(x: seq<u8>, pos: nat)
    requires pos < |x| && pos + RunLen(x, pos) < |x|
    ensures var mid := pos + RunLen(x, pos);
            EncodeFrom(x, pos) == [RunMark(x, pos) + 16 * RunMark(x, mid)] + RunBytes(x, pos) + RunBytes(x, mid)
                                    + EncodeFrom(x, mid + RunLen(x, mid))
  {
  }

  /** Emits the literal bytes of the run at `start`, if it is a literal run. */
  method EmitIfLiteral(src: seq<u8>, start: nat, mark: nat, end: nat, dst: array<u8>, off: nat,
                       ghost h: nat) returns (off': nat)
    requires start < |src| && mark == RunMark(src, start) && end == start + RunLen(src, start)
    requires Solvent(src, start, h) && 2 * off <= h + 2 && dst.Length == BodyCapacity(|src|)
    requires off + |RunBytes(src, start)| <= dst.Length
    modifies dst
    ensures off' == off + |RunBytes(src, start)| <= dst.Length
    ensures dst[..off] == old(dst[..off]) && dst[off..off'] == RunBytes(src, start)
  {
    off' := off;
    if mark < 8 {
      if start + 8 <= |src| { StoreFits(src, start, h, off); }
      off' := EmitRun(src, start, end, dst, off);
    } else {
      FillMark(src, start);
    }
  }

  lemma FillMark(x: seq<u8>, pos: nat)
    requires pos < |x|
    ensures RunMark(x, pos) >= 8 <==> IsFill(x[pos])
  {
    if IsFill(x[pos]) { FillBound(x, pos); }
  }

  /** The compressed body, written into a destination of exactly n + ceil(n / 14) bytes. */
  method CompressBody(src: seq<u8>) returns (body: seq<u8>)
    ensures body == EncodeFrom(src, 0)
  {
    hide EncodeFrom, RunMark, RunBytes, RunLen, Budget, BodyCapacity;
    CompressedFits(src);
    StartSolvent(src);
    var dst := new u8[BodyCapacity(|src|)](_ => 0);
    var off: nat, pos: nat := 0, 0;
    ghost var goal := EncodeFrom(src, 0);
    while pos < |src|
      invariant pos <= |src| && off <= dst.Length
      invariant dst[..off] + EncodeFrom(src, pos) == goal
      invariant pos < |src| ==> Solvent(src, pos, 2 * off)
    {
      off, pos := CompressStep(src, dst, off, pos, goal);
    }
    NothingLeft(src);
    body := dst[..off];
  }

  lemma NothingLeft(src: seq<u8>)
    ensures EncodeFrom(src, |src|) == []
  {
  }

  lemma EncodeLast(x: seq<u8>, pos: nat)
    requires pos < |x| && pos + RunLen(x, pos) == |x|
    ensures EncodeFrom(x, pos) == [RunMark(x, pos)] + RunBytes(x, pos)
  {
  }

  lemma StartSolvent(x: seq<u8>)
    ensures Solvent(x, 0, 0)
  {
  }

  /** A mark byte and the literal bytes of the run behind it. */
  method EmitMarked(src: seq<u8>, start: nat, mark: nat, end: nat, marks: u8, dst: array<u8>,
                    off: nat) returns (off': nat)
    requires start < |src| && mark == RunMark(src, start) && end == start + RunLen(src, start)
    requires Solvent(src, start, 2 * off) && dst.Length == BodyCapacity(|src|)
    requires off + 1 + |RunBytes(src, start)| <= dst.Length
    modifies dst
    ensures off' == off + 1 + |RunBytes(src, start)| <= dst.Length
    ensures dst[..off'] == old(dst[..off]) + [marks] + RunBytes(src, start)
  {
    hide RunMark, RunBytes, RunLen, BodyCapacity, Solvent;
    ghost var done := dst[..off];
    dst[off] := marks;
    ghost var marked := dst[..off + 1];
    assert marked == done + [marks];
    off' := EmitIfLiteral(src, start, mark, end, dst, off + 1, 2 * off);
    assert dst[..off'] == dst[..off + 1] + dst[off + 1..off'];
  }

  lemma Regroup(done: seq<u8>, mark: seq<u8>, first: seq<u8>, second: seq<u8>, rest: seq<u8>)
    ensures done + (mark + first + second + rest) == done + mark + first + second + rest
  {
  }

  /** One round of the loop: the mark byte of a pair and the literal bytes of both runs. */
  method CompressStep(src: seq<u8>, dst: array<u8>, off: nat, pos: nat, ghost goal: seq<u8>)
    returns (off': nat, pos': nat)
    requires pos < |src| && off <= dst.Length == BodyCapacity(|src|) && |goal| <= dst.Length
    requires dst[..off] + EncodeFrom(src, pos) == goal && Solvent(src, pos, 2 * off)
    modifies dst
    ensures pos < pos' <= |src| && off' <= dst.Length
    ensures dst[..off'] + EncodeFrom(src, pos') == goal
    ensures pos' < |src| ==> Solvent(src, pos', 2 * off')
  {
    hide EncodeFrom, RunMark, RunBytes, RunLen, BodyCapacity, Solvent;
    var a, mid := PickRun(src, pos);
    if mid == |src| {
      EncodeLast(src, pos);
      off' := EmitMarked(src, pos, a, mid, a, dst, off);
      pos' := mid;
      NothingLeft(src);
    } else {
      var b, end := PickRun(src, mid);
      EncodePair(src, pos);
      Regroup(dst[..off], [a + 16 * b], RunBytes(src, pos), RunBytes(src, mid), EncodeFrom(src, end));
      RunStaysSolvent(src, pos, 2 * off);
      off' := EmitMarked(src, pos, a, mid, a + 16 * b, dst, off);
      ghost var middle := dst[..off'];
      ghost var h := 2 * off + 2 * |RunBytes(src, pos)| + 1;
      off' := EmitIfLiteral(src, mid, b, end, dst, off', h);
      pos' := end;
      assert dst[..off'] == middle + RunBytes(src, mid);
      if end < |src| { RunStaysSolvent(src, mid, h); }
    }
  }

  method Compress(src: seq<u8>) returns (out: seq<u8>)
    ensures out == Compressed(src)
  {
    if |src| == 0 {
      return [];
    }
    var header := WriteVarint(|src|);
    var body := CompressBody(src);
    out := header + body;
  }

  // ----- decompressing

  /** One nibble, storing 4 or 8 bytes at a time into a buffer 7 bytes longer than the target. */
  method Unpack(mark: nat, src: seq<u8>, pos: nat, out: array<u8>, outPos: nat,
                target: nat) returns (r: Result<(nat, nat)>)
    requires mark < 16 && pos <= |src| && outPos <= target && out.Length == target + 7
    modifies out
    ensures r.Err? ==> UnpackStep(mark, src, pos, old(out[..outPos]), target) == Err(r.kind)
    ensures r.Ok? ==>
              && pos <= r.value.0 <= |src| && outPos <= r.value.1 <= target
              && UnpackStep(mark, src, pos, old(out[..outPos]), target) == Ok((r.value.0, out[..r.value.1]))
  {
    ghost var before := out[..outPos];
    if outPos >= target {
      return Ok((pos, outPos));
    }
    if mark / 8 % 2 == 1 {
      var count := mark % 4 + 1;
      if count > target - outPos {
        return Err(Truncated);
      }
      var fill: u8 := if mark / 4 % 2 == 1 then 0xff else 0;
      forall i | 0 <= i < 4 {
        out[outPos + i] := fill;
      }
      assert out[..outPos + count] == before + Repeat(fill, count);
      return Ok((pos, outPos + count));
    }
    var len := mark % 8;
    if len == 0 {
      return Ok((pos, outPos));
    }
    if len > |src| - pos || len > target - outPos {
      return Err(Truncated);
    }
    if |src| - pos >= 8 {
      forall i | 0 <= i < 8 {
        out[outPos + i] := src[pos + i];
      }
    } else {
      forall i | 0 <= i < len {
        out[outPos + i] := src[pos + i];
      }
    }
    assert out[..outPos + len] == before + src[pos..pos + len];
    return Ok((pos + len, outPos + len));
  }

  /** The decompressor agrees with the byte-at-a-time decoder on every input, well formed or not. */
  method Decompress(src: seq<u8>) returns (result: Result<seq<u8>>)
    ensures result == Decompressed(src)
  {
    hide UnpackStep, ReadVarint;
    if |src| == 0 {
      return Ok([]);
    }
    var parsed := ParseVarint(src);
    if parsed.Err? {
      return Err(parsed.kind);
    }
    var (target, pos) := parsed.value;
    var out := new u8[target + 7](_ => 0);
    var outPos: nat := 0;
    assert out[..0] == [];
    while pos < |src|
      invariant pos <= |src| && outPos <= target
      invariant Decompressed(src) == DecodeFrom(src, pos, out[..outPos], target)
      decreases |src| - pos
    {
      var mark := src[pos];
      pos := pos + 1;
      var low := Unpack(mark % 16, src, pos, out, outPos, target);
      if low.Err? {
        return Err(low.kind);
      }
      pos, outPos := low.value.0, low.value.1;
      var high := Unpack(mark / 16, src, pos, out, outPos, target);
      if high.Err? {
        return Err(high.kind);
      }
      pos, outPos := high.value.0, high.value.1;
    }
    if outPos != target {
      return Err(Truncated);
    }
    return Ok(out[..target]);
  }
}
