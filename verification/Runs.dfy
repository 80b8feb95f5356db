/** The run encoding behind compression: nibble marks in pairs, followed by the bytes of literal
    runs. A reference encoder and a byte-at-a-time reference decoder. */
module Runs {
  import opened Bits
  import opened Wrappers
  import opened Packing

  predicate IsFill(b: u8) {
    b == 0 || b == 0xff
  }

  function Min(a: nat, b: nat): nat {
    if a <= b then a else b
  }

  // ----- runs

  /** Length of the run of bytes equal to `b`, at most `limit`. */
  function FillLen(x: seq<u8>, pos: nat, b: u8, limit: nat): (n: nat)
    requires pos <= |x|
    ensures n <= limit && pos + n <= |x|
    decreases limit
  {
    if limit == 0 || pos == |x| || x[pos] != b then 0 else 1 + FillLen(x, pos + 1, b, limit - 1)
  }

  lemma {:induction false} FillBytes(x: seq<u8>, pos: nat, b: u8, limit: nat)
    requires pos <= |x|
    ensures forall i :: pos <= i < pos + FillLen(x, pos, b, limit) ==> x[i] == b
    decreases limit
  {
    if limit > 0 && pos < |x| && x[pos] == b { FillBytes(x, pos + 1, b, limit - 1); }
  }

  /** Length of the run of bytes that are neither 0 nor 0xff, at most `limit`. */
  function LiteralLen(x: seq<u8>, pos: nat, limit: nat): (n: nat)
    requires pos <= |x|
    ensures n <= limit && pos + n <= |x|
    ensures n < limit ==> pos + n == |x| || IsFill(x[pos + n])
    decreases limit
  {
    if limit == 0 || pos == |x| || IsFill(x[pos]) then 0 else 1 + LiteralLen(x, pos + 1, limit - 1)
  }

  function RunLen(x: seq<u8>, pos: nat): (n: nat)
    requires pos < |x|
    ensures 1 <= n <= 7 && pos + n <= |x|
  {
    if IsFill(x[pos]) then FillLen(x, pos, x[pos], 4) else LiteralLen(x, pos, 7)
  }

  /** The 4-bit mark: 8 | fill bit | length - 1 for a fill run, the length for a literal run. */
  function RunMark(x: seq<u8>, pos: nat): (m: nat)
    requires pos < |x|
    ensures m < 16
  {
    if IsFill(x[pos]) then FillBound(x, pos); 8 + (if x[pos] == 0xff then 4 else 0) + (RunLen(x, pos) - 1)
    else RunLen(x, pos)
  }

  lemma FillBound(x: seq<u8>, pos: nat)
    requires pos < |x| && IsFill(x[pos])
    ensures RunLen(x, pos) <= 4
  {
  }

  lemma {:induction false} FillEnds(x: seq<u8>, pos: nat, b: u8, limit: nat)
    requires pos <= |x|
    ensures var n := FillLen(x, pos, b, limit); n < limit ==> pos + n == |x| || x[pos + n] != b
    decreases limit
  {
    if limit > 0 && pos < |x| && x[pos] == b { FillEnds(x, pos + 1, b, limit - 1); }
  }

  lemma {:induction false} LiteralBytes(x: seq<u8>, pos: nat, limit: nat)
    requires pos <= |x|
    ensures forall i :: pos <= i < pos + LiteralLen(x, pos, limit) ==> !IsFill(x[i])
    decreases limit
  {
    if limit > 0 && pos < |x| && !IsFill(x[pos]) { LiteralBytes(x, pos + 1, limit - 1); }
  }

  /** A run is as long as the format allows: up to four equal bytes 0x00, marked 8 to 11, or 0xff,
      marked 12 to 15, or up to seven other bytes, marked by their number and copied. */
  lemma RunFormat(x: seq<u8>, pos: nat)
    requires pos < |x|
    ensures var n, b := RunLen(x, pos), x[pos];
            if b == 0 || b == 0xff then
              && 1 <= n <= 4 && (forall i :: pos <= i < pos + n ==> x[i] == b)
              && (n < 4 ==> pos + n == |x| || x[pos + n] != b)
              && RunMark(x, pos) == n + (if b == 0 then 7 else 11) && RunBytes(x, pos) == []
            else
              && 1 <= n <= 7 && (forall i :: pos <= i < pos + n ==> x[i] != 0 && x[i] != 0xff)
              && (n < 7 ==> pos + n == |x| || x[pos + n] == 0 || x[pos + n] == 0xff)
              && RunMark(x, pos) == n && RunBytes(x, pos) == x[pos..pos + n]
  {
    FillBytes(x, pos, x[pos], 4);
    FillEnds(x, pos, x[pos], 4);
    LiteralBytes(x, pos, 7);
    if IsFill(x[pos]) { FillBound(x, pos); }
  }

  /** The bytes a run adds behind its mark. */
  function RunBytes(x: seq<u8>, pos: nat): seq<u8>
    requires pos < |x|
  {
    if IsFill(x[pos]) then [] else x[pos..pos + RunLen(x, pos)]
  }

  /** Two marks per byte, then their literal bytes; a last unpaired run leaves the high nibble 0. */
  function EncodeFrom(x: seq<u8>, pos: nat): seq<u8>
    requires pos <= |x|
    decreases |x| - pos
  {
    hide RunLen, RunMark, RunBytes;
    if pos == |x| then []
    else
      var a, mid := RunMark(x, pos), pos + RunLen(x, pos);
      if mid == |x| then [a] + RunBytes(x, pos)
      else [a + 16 * RunMark(x, mid)] + RunBytes(x, pos) + RunBytes(x, mid) + EncodeFrom(x, mid + RunLen(x, mid))
  }

  function Compressed(x: seq<u8>): seq<u8> {
    if x == [] then [] else Varint(|x|) + EncodeFrom(x, 0)
  }

  /** The low half of a byte is the mark of one run, the high half that of the next or 0 at the end;
      the bytes of both follow, then the next two runs. */
  lemma PairFormat(x: seq<u8>, pos: nat)
    requires pos < |x|
    ensures var body, mid := EncodeFrom(x, pos), pos + RunLen(x, pos);
            && body != [] && body[0] % 16 == RunMark(x, pos)
            && body[0] / 16 == (if mid < |x| then RunMark(x, mid) else 0)
            && body[1..] == RunBytes(x, pos) + BehindRun(x, mid)
  {
    hide RunLen, RunMark, RunBytes, EncodeFrom;
    var mid := pos + RunLen(x, pos);
    var next := if mid < |x| then RunMark(x, mid) else 0;
    var rest := RunBytes(x, pos) + BehindRun(x, mid);
    TwoMarks(RunMark(x, pos), next);
    FirstPair(x, pos, next, rest);
    assert EncodeFrom(x, pos)[1..] == rest;
  }

  /** The bytes of the second run of a pair, and what follows the pair. */
  function BehindRun(x: seq<u8>, mid: nat): seq<u8>
    requires mid <= |x|
  {
    if mid < |x| then RunBytes(x, mid) + EncodeFrom(x, mid + RunLen(x, mid)) else []
  }

  lemma FirstPair(x: seq<u8>, pos: nat, next: nat, rest: seq<u8>)
    requires pos < |x| && next == if pos + RunLen(x, pos) < |x| then RunMark(x, pos + RunLen(x, pos)) else 0
    requires rest == RunBytes(x, pos) + BehindRun(x, pos + RunLen(x, pos))
    ensures EncodeFrom(x, pos) == [RunMark(x, pos) + 16 * next] + rest
  {
    hide RunLen, RunMark, RunBytes;
  }

  lemma TwoMarks(a: nat, b: nat)
    requires a < 16 && b < 16
    ensures (a + 16 * b) % 16 == a && (a + 16 * b) / 16 == b
  {
  }

  // ----- the reference decoder

  function Repeat(b: u8, n: nat): (r: seq<u8>)
    ensures |r| == n
  {
    seq(n, _ => b)
  }

  /** Decodes one nibble: the new source position and output, or an error. */
  function UnpackStep(mark: nat, src: seq<u8>, pos: nat, out: seq<u8>, target: nat): (r: Result<(nat, seq<u8>)>)
    requires pos <= |src| && mark < 16
    ensures r.Ok? ==> pos <= r.value.0 <= |src|
  {
    if |out| >= target then Ok((pos, out))
    else if mark >= 8 then
      var count := mark % 4 + 1;
      if count > target - |out| then Err(Truncated)
      else Ok((pos, out + Repeat(if mark / 4 % 2 == 1 then 0xff else 0, count)))
    else if mark == 0 then Ok((pos, out))
    else if mark > |src| - pos || mark > target - |out| then Err(Truncated)
    else Ok((pos + mark, out + src[pos..pos + mark]))
  }

  function DecodeFrom(src: seq<u8>, pos: nat, out: seq<u8>, target: nat): Result<seq<u8>>
    requires pos <= |src|
    decreases |src| - pos
  {
    if pos == |src| then (if |out| == target then Ok(out) else Err(Truncated))
    else
      match UnpackStep(src[pos] % 16, src, pos + 1, out, target)
      case Err(kind) => Err(kind)
      case Ok((p1, out1)) =>
        match UnpackStep(src[pos] / 16, src, p1, out1, target)
        case Err(kind) => Err(kind)
        case Ok((p2, out2)) => DecodeFrom(src, p2, out2, target)
  }

  function Decompressed(src: seq<u8>): Result<seq<u8>> {
    if src == [] then Ok([])
    else
      match ReadVarint(src, 0, 0)
      case Err(kind) => Err(kind)
      case Ok((target, pos)) => DecodeFrom(src, pos, [], target)
  }

  lemma {:induction false} DecodesTarget(src: seq<u8>, pos: nat, out: seq<u8>, target: nat)
    requires pos <= |src| && DecodeFrom(src, pos, out, target).Ok?
    ensures var all := DecodeFrom(src, pos, out, target).value; |all| == target && out <= all
    decreases |src| - pos
  {
    if pos < |src| {
      var (p1, out1) := UnpackStep(src[pos] % 16, src, pos + 1, out, target).value;
      var (p2, out2) := UnpackStep(src[pos] / 16, src, p1, out1, target).value;
      DecodesTarget(src, p2, out2, target);
    }
  }

  /** Whatever the input, what is accepted is as long as its header says. */
  lemma DecodedLength(src: seq<u8>)
    requires src != [] && Decompressed(src).Ok?
    ensures ReadVarint(src, 0, 0).Ok? && |Decompressed(src).value| == ReadVarint(src, 0, 0).value.0
  {
    DecodesTarget(src, ReadVarint(src, 0, 0).value.1, [], ReadVarint(src, 0, 0).value.0);
  }

  // ----- round trip

  /** Decoding the mark of a run, with its bytes next in the source, appends exactly the run. */
  lemma RunUnpacks(x: seq<u8>, pos: nat, src: seq<u8>, at: nat)
    requires pos < |x| && at <= |src|
    requires RunBytes(x, pos) <= src[at..]
    ensures UnpackStep(RunMark(x, pos), src, at, x[..pos], |x|)
        == Ok((at + |RunBytes(x, pos)|, x[..pos + RunLen(x, pos)]))
  {
    hide FillLen, LiteralLen;
    var n, mark := RunLen(x, pos), RunMark(x, pos);
    if IsFill(x[pos]) {
      FillBound(x, pos);
      FillBytes(x, pos, x[pos], 4);
      assert mark % 4 + 1 == n;
      assert mark / 4 % 2 == 1 <==> x[pos] == 0xff;
      assert x[..pos] + Repeat(x[pos], n) == x[..pos + n];
    } else {
      assert src[at..at + n] == src[at..][..n] == x[pos..pos + n];
      assert x[..pos] + x[pos..pos + n] == x[..pos + n];
    }
  }

  /** Two runs, up to `mid` and up to `end`, behind one mark byte. */
  lemma PairUnpacks(x: seq<u8>, pos: nat, mid: nat, end: nat, src: seq<u8>, at: nat, rest: seq<u8>)
    requires pos < |x| && mid == pos + RunLen(x, pos) < |x| && end == mid + RunLen(x, mid) && at < |src|
    requires src[at] == RunMark(x, pos) + 16 * RunMark(x, mid)
    requires src[at + 1..] == RunBytes(x, pos) + RunBytes(x, mid) + rest
    ensures var p1 := at + 1 + |RunBytes(x, pos)|; var p2 := p1 + |RunBytes(x, mid)|;
            && end <= |x| && p2 <= |src| && src[p2..] == rest
            && UnpackStep(src[at] % 16, src, at + 1, x[..pos], |x|) == Ok((p1, x[..mid]))
            && UnpackStep(src[at] / 16, src, p1, x[..mid], |x|) == Ok((p2, x[..end]))
  {
    hide UnpackStep, RunMark, RunBytes, RunLen;
    var a, b, tail := RunBytes(x, pos), RunBytes(x, mid), src[at + 1..];
    RunUnpacks(x, pos, src, at + 1);
    var p1 := at + 1 + |a|;
    assert src[p1..] == tail[|a|..] == b + rest;
    RunUnpacks(x, mid, src, p1);
    assert src[p1 + |b|..] == src[p1..][|b|..] == rest;
  }

  /** A last run alone behind its mark byte; the high nibble is 0 and the target is reached. */
  lemma LastUnpacks(x: seq<u8>, pos: nat, src: seq<u8>, at: nat)
    requires pos < |x| && pos + RunLen(x, pos) == |x| && at < |src|
    requires src[at] == RunMark(x, pos) && src[at + 1..] == RunBytes(x, pos)
    ensures UnpackStep(src[at] % 16, src, at + 1, x[..pos], |x|) == Ok((|src|, x))
    ensures UnpackStep(src[at] / 16, src, |src|, x, |x|) == Ok((|src|, x))
  {
    RunUnpacks(x, pos, src, at + 1);
    assert x[..|x|] == x;
    UnpackDone(src[at] / 16, src, |src|, x, |x|);
  }

  lemma {:induction false} EncodedDecodes(x: seq<u8>, pos: nat, src: seq<u8>, at: nat)
    requires pos <= |x| && at <= |src| && src[at..] == EncodeFrom(x, pos)
    ensures DecodeFrom(src, at, x[..pos], |x|) == Ok(x)
    decreases |x| - pos
  {
    hide UnpackStep, RunMark, RunBytes, RunLen;
    if pos == |x| {
      assert x[..pos] == x;
    } else {
      var mid := pos + RunLen(x, pos);
      assert src[at] == src[at..][0] && src[at + 1..] == src[at..][1..];
      if mid == |x| {
        LastUnpacks(x, pos, src, at);
      } else {
        var end := mid + RunLen(x, mid);
        PairUnpacks(x, pos, mid, end, src, at, EncodeFrom(x, end));
        EncodedDecodes(x, end, src, at + 1 + |RunBytes(x, pos)| + |RunBytes(x, mid)|);
      }
    }
  }

  /** Once the target is reached, further nibbles change nothing. */
  lemma UnpackDone(mark: nat, src: seq<u8>, pos: nat, out: seq<u8>, target: nat)
    requires pos <= |src| && mark < 16 && |out| >= target
    ensures UnpackStep(mark, src, pos, out, target) == Ok((pos, out))
  {
  }

  /** Every byte string shorter than 2^35 is restored. */
  lemma CompressionRoundTrip(x: seq<u8>)
    requires |x| < 0x8_0000_0000
    ensures Decompressed(Compressed(x)) == Ok(x)
  {
    if x != [] {
      hide EncodeFrom, ReadVarint, DecodeFrom;
      var head := Varint(|x|);
      VarintRoundTrip(|x|, EncodeFrom(x, 0));
      assert Compressed(x)[|head|..] == EncodeFrom(x, 0);
      EncodedDecodes(x, 0, Compressed(x), |head|);
      assert x[..0] == [];
    }
  }

  // ----- size

  /** Half bytes still to be emitted from `pos` on: two per literal byte and one per mark. */
  function Halves(x: seq<u8>, pos: nat): nat
    requires pos <= |x|
    decreases |x| - pos
  {
    if pos == |x| then 0 else 2 * |RunBytes(x, pos)| + 1 + Halves(x, pos + RunLen(x, pos))
  }

  function CeilDiv(a: nat, b: nat): nat
    requires b >= 1
  {
    (a + b - 1) / b
  }

  /** 2r + ceil(r / 7): every full literal run brings the extra half byte, nothing else does. */
  function Budget(r: nat): nat {
    2 * r + CeilDiv(r, 7)
  }

  lemma BudgetGrows(r: nat, k: nat)
    ensures Budget(r + k) >= Budget(r) + 2 * k
    ensures Budget(r + 7) == Budget(r) + 15
  {
  }

  lemma RunFacts(x: seq<u8>, pos: nat)
    requires pos < |x|
    ensures IsFill(x[pos]) ==> RunBytes(x, pos) == []
    ensures !IsFill(x[pos]) ==> |RunBytes(x, pos)| == RunLen(x, pos)
    ensures !IsFill(x[pos]) && RunLen(x, pos) < 7 && pos + RunLen(x, pos) < |x| ==> IsFill(x[pos + RunLen(x, pos)])
  {
  }

  /** A literal run shorter than 7 ends at a fill byte or at the end, so it cannot cost extra. */
  lemma {:induction false} HalvesBound(x: seq<u8>, pos: nat)
    requires pos <= |x|
    ensures Halves(x, pos) <= Budget(|x| - pos)
    decreases |x| - pos
  {
    hide RunLen, RunBytes, IsFill, Budget;
    if pos == |x| {
      SmallBudget(0);
    } else {
      var n := RunLen(x, pos);
      var r := |x| - pos - n;
      RunFacts(x, pos);
      HalvesBound(x, pos + n);
      BudgetGrows(r, n);
      if !IsFill(x[pos]) && n < 7 {
        if r == 0 {
          SmallBudget(n);
        } else {
          var m := RunLen(x, pos + n);
          RunFacts(x, pos + n);
          HalvesBound(x, pos + n + m);
          BudgetGrows(r - m, n + m);
        }
      }
    }
  }

  lemma SmallBudget(r: nat)
    requires r <= 7
    ensures Budget(r) == if r == 0 then 0 else 2 * r + 1
  {
  }

  lemma {:induction false} EncodedLength(x: seq<u8>, pos: nat)
    requires pos <= |x|
    ensures |EncodeFrom(x, pos)| == CeilDiv(Halves(x, pos), 2)
    decreases |x| - pos
  {
    hide RunMark, RunBytes, RunLen;
    if pos < |x| {
      var mid := pos + RunLen(x, pos);
      if mid < |x| { EncodedLength(x, mid + RunLen(x, mid)); }
    }
  }

  function BodyCapacity(n: nat): nat {
    n + CeilDiv(n, 14)
  }

  lemma BudgetIsCapacity(n: nat)
    ensures CeilDiv(Budget(n), 2) == BodyCapacity(n)
  {
    var q, r := n / 14, n % 14;
    assert n == 14 * q + r;
    assert CeilDiv(n, 7) == 2 * q + CeilDiv(r, 7) && CeilDiv(n, 14) == q + CeilDiv(r, 14);
  }

  /** The compressed body is at most n + ceil(n / 14) bytes. */
  lemma CompressedFits(x: seq<u8>)
    ensures |EncodeFrom(x, 0)| <= BodyCapacity(|x|)
  {
    EncodedLength(x, 0);
    HalvesBound(x, 0);
    BudgetIsCapacity(|x|);
  }

  lemma {:induction false} LiteralRun(n: nat, pos: nat, limit: nat)
    requires pos <= n
    ensures LiteralLen(seq(n, _ => 1), pos, limit) == Min(limit, n - pos)
    decreases limit
  {
    if limit > 0 && pos < n { LiteralRun(n, pos + 1, limit - 1); }
  }

  lemma {:induction false} LiteralHalves(n: nat, pos: nat)
    requires pos <= n
    ensures Halves(seq(n, _ => 1), pos) == Budget(n - pos)
    decreases n - pos
  {
    hide LiteralLen, Budget;
    if pos == n {
      SmallBudget(0);
    } else {
      LiteralRun(n, pos, 7);
      var len := Min(7, n - pos);
      LiteralHalves(n, pos + len);
      if len == 7 { BudgetGrows(n - pos - 7, 0); } else { SmallBudget(len); }
    }
  }

  lemma FillRun(b: u8, n: nat, pos: nat)
    requires IsFill(b) && pos < n
    ensures RunLen(Repeat(b, n), pos) == Min(4, n - pos) && RunBytes(Repeat(b, n), pos) == []
  {
    hide RunLen, RunBytes;
    RunFormat(Repeat(b, n), pos);
  }

  lemma {:induction false} FillHalves(b: u8, n: nat, pos: nat)
    requires IsFill(b) && pos <= n
    ensures Halves(Repeat(b, n), pos) == CeilDiv(n - pos, 4)
    decreases n - pos
  {
    hide RunLen, RunBytes, Repeat;
    if pos < n {
      FillRun(b, n, pos);
      FillHalves(b, n, pos + Min(4, n - pos));
    }
  }

  /** Equal fill bytes take one nibble for every four. */
  lemma FillsCompress(b: u8, n: nat, pos: nat)
    requires IsFill(b) && pos <= n
    ensures |EncodeFrom(Repeat(b, n), pos)| == CeilDiv(CeilDiv(n - pos, 4), 2)
  {
    hide EncodeFrom, Halves, CeilDiv;
    EncodedLength(Repeat(b, n), pos);
    FillHalves(b, n, pos);
  }

  /** The bound is reached at every length, by bytes that never form a fill run. */
  lemma CapacityReached(n: nat)
    ensures |EncodeFrom(seq(n, _ => 1), 0)| == BodyCapacity(n)
  {
    EncodedLength(seq(n, _ => 1), 0);
    LiteralHalves(n, 0);
    BudgetIsCapacity(n);
  }
}
