/** Machine words as integers: little-endian bytes, shifts, bitwise operators and the
    2-bit fields ("digits") that message headers and perfect-hash bitmaps are packed from. */
module Bits {

  type u8 = x: int | 0 <= x < 0x100
  type u32 = x: int | 0 <= x < 0x1_0000_0000
  type u64 = x: int | 0 <= x < 0x1_0000_0000_0000_0000

  const TWO32: nat := 0x1_0000_0000
  const TWO64: nat := 0x1_0000_0000_0000_0000

  // ----- bitwise operators on unsigned machine words

  function And(a: nat, b: nat): (r: nat)
    ensures r <= a && r <= b
  {
    if a == 0 || b == 0 then 0
    else 2 * And(a / 2, b / 2) + (if a % 2 == 1 && b % 2 == 1 then 1 else 0)
  }

  function Or(a: nat, b: nat): (r: nat)
    ensures r >= a && r >= b && r <= a + b
  {
    if a == 0 then b else if b == 0 then a
    else 2 * Or(a / 2, b / 2) + (if a % 2 == 1 || b % 2 == 1 then 1 else 0)
  }

  /** count_ones */
  function PopCount(v: nat): nat {
    if v == 0 then 0 else v % 2 + PopCount(v / 2)
  }

  function Pow2(n: nat): (r: nat)
    ensures r >= 1
  {
    if n == 0 then 1 else 2 * Pow2(n - 1)
  }

  function Shl(v: nat, n: nat): nat {
    if n == 0 then v else 2 * Shl(v, n - 1)
  }

  function Shr(v: nat, n: nat): nat
    decreases n
  {
    if n == 0 then v else Shr(v / 2, n - 1)
  }

  lemma {:induction false} ShlIs(v: nat, n: nat)
    ensures Shl(v, n) == v * Pow2(n)
  {
    if n > 0 {
      ShlIs(v, n - 1);
      Twice(v, Pow2(n - 1));
    }
  }

  lemma Twice(p: nat, x: nat)
    ensures (2 * p) * x == 2 * (p * x) && p * (2 * x) == 2 * (p * x)
  {
  }

  /** Shifting out the low part leaves the high part. */
  lemma {:induction false} ShrHigh(low: nat, high: nat, n: nat)
    requires low < Pow2(n)
    ensures Shr(low + Shl(high, n), n) == high
    decreases n
  {
    if n > 0 { ShrHigh(low / 2, high, n - 1); }
  }

  // ----- 2-bit digits

  function Pow4(n: nat): (r: nat)
    ensures r >= 1
  {
    if n == 0 then 1 else 4 * Pow4(n - 1)
  }

  function Digit(v: nat, i: nat): (d: nat)
    ensures d < 4
    decreases i
  {
    if i == 0 then v % 4 else Digit(v / 4, i - 1)
  }

  lemma {:induction false} Pow4Pow2(n: nat)
    ensures Pow4(n) == Pow2(2 * n)
  {
    if n > 0 { Pow4Pow2(n - 1); }
  }

  lemma {:induction false} Pow4Add(a: nat, b: nat)
    ensures Pow4(a + b) == Pow4(a) * Pow4(b)
  {
    if a > 0 { Pow4Add(a - 1, b); }
  }

  lemma Pow4Values()
    ensures Pow4(4) == 0x100 && Pow4(12) == 0x100_0000 && Pow4(16) == TWO32 && Pow4(25) == 0x4_0000_0000_0000
        && Pow4(32) == TWO64
  {
    assert Pow4(4) == 256;
    Pow4Add(4, 4);
    Pow4Add(4, 8);
    Pow4Add(8, 8);
    Pow4Add(16, 16);
    Pow4Add(16, 8);
    Pow4Add(24, 1);
  }

  lemma DivUnique(v: int, d: int, q: int, r: int)
    requires d >= 1 && v == d * q + r && 0 <= r < d
    ensures v / d == q && v % d == r
  {
    var k := v / d - q;
    assert v == d * (v / d) + v % d;
    assert d * k == r - v % d by { assert d * k == d * (v / d) - d * q; }
    MulSign(d, k);
  }

  lemma MulSign(d: int, k: int)
    requires d >= 1
    ensures (k >= 1 ==> d * k >= d) && (k <= -1 ==> d * k <= -d)
  {
  }

  /** `(v >> 2i) & 3` selects digit i. */
  lemma {:induction false} DigitIsShift(v: nat, i: nat)
    ensures Digit(v, i) == Shr(v, 2 * i) % 4
    decreases i
  {
    if i > 0 {
      DigitIsShift(v / 4, i - 1);
      assert Shr(v, 2 * i) == Shr(v / 2, 2 * i - 1) == Shr(v / 2 / 2, 2 * i - 2);
    }
  }

  /** Number of the first `k` digits that are not 3, i.e. of occupied perfect-hash slots. */
  function ValidAmong(v: nat, k: nat): (r: nat)
    ensures r <= k
    decreases k
  {
    if k == 0 then 0 else (if v % 4 != 3 then 1 else 0) + ValidAmong(v / 4, k - 1)
  }

  /** Sum of the first `k` digits. */
  function DigitSum(v: nat, k: nat): (r: nat)
    decreases k
  {
    if k == 0 then 0 else v % 4 + DigitSum(v / 4, k - 1)
  }

  /** The mask 0b...0101 over k digits. */
  function Mask5(k: nat): nat {
    if k == 0 then 0 else 4 * Mask5(k - 1) + 1
  }

  /** The mask 0b...1010 over k digits. */
  function MaskA(k: nat): nat {
    if k == 0 then 0 else 4 * MaskA(k - 1) + 2
  }

  lemma MaskValues()
    ensures Mask5(32) == 0x5555_5555_5555_5555
    ensures MaskA(16) == 0xaaaa_aaaa && MaskA(32) == 0xaaaa_aaaa_aaaa_aaaa
  {
    MaskClosed(16); MaskClosed(32);
    Pow4Values();
  }

  lemma {:induction false} MaskClosed(k: nat)
    ensures 3 * Mask5(k) == Pow4(k) - 1 && 3 * MaskA(k) == 2 * (Pow4(k) - 1)
  {
    if k > 0 { MaskClosed(k - 1); }
  }

  lemma AndBit(a: nat, b: nat, x: nat, y: nat)
    requires x < 2 && y < 2
    ensures And(2 * a + x, 2 * b + y) == 2 * And(a, b) + (if x == 1 && y == 1 then 1 else 0)
  {
    assert (2 * a + x) / 2 == a && (2 * b + y) / 2 == b;
    assert (2 * a + x) % 2 == x && (2 * b + y) % 2 == y;
  }

  lemma PopCountBit(a: nat, x: nat)
    requires x < 2
    ensures PopCount(2 * a + x) == PopCount(a) + x
  {
    assert (2 * a + x) / 2 == a && (2 * a + x) % 2 == x;
  }

  lemma PopCountDigit(p: nat, h: nat, l: nat)
    requires h < 2 && l < 2
    ensures PopCount(4 * p + 2 * h + l) == PopCount(p) + h + l
  {
    hide PopCount;
    PopCountBit(p, h);
    PopCountBit(2 * p + h, l);
  }

  lemma PairStep(q: nat, m: nat, h: nat, l: nat)
    requires h < 2 && l < 2
    ensures And(And(4 * q + 2 * h + l, 4 * m + 1), 2 * q + h) == 4 * And(And(q, m), q / 2)
        + (if h == 1 && l == 1 then 1 else 0)
  {
    hide And;
    var x := And(q, m);
    AndBit(q, m, h, 0);
    AndBit(2 * q + h, 2 * m, l, 1);
    assert And(4 * q + 2 * h + l, 4 * m + 1) == 2 * (2 * x) + l;
    AndBit(x, q / 2, 0, q % 2);
    AndBit(2 * x, q, l, h);
  }

  lemma NoOnes(v: nat)
    ensures PopCount(And(And(v, 0), v / 2)) == 0 && And(v, 0) == 0 && PopCount(0) == 0
  {
  }

  /** count_ones of `(v & 0x55..) & (v >> 1)` counts the digits equal to 3. */
  lemma {:induction false} PairsOfOnes(v: nat, k: nat)
    ensures PopCount(And(And(v, Mask5(k)), v / 2)) == k - ValidAmong(v, k)
    decreases k
  {
    hide And, PopCount;
    if k == 0 {
      NoOnes(v);
    } else {
      var q, m, h, l := v / 4, Mask5(k - 1), v / 2 % 2, v % 2;
      PairsOfOnes(q, k - 1);
      PairStep(q, m, h, l);
      assert v == 4 * q + 2 * h + l && v / 2 == 2 * q + h && v % 4 == 2 * h + l;
      PopCountDigit(And(And(q, m), q / 2), 0, if h == 1 && l == 1 then 1 else 0);
    }
  }

  lemma OnesStep(q: nat, m: nat, h: nat, l: nat)
    requires h < 2 && l < 2
    ensures PopCount(And(4 * q + 2 * h + l, 4 * m + 2)) + PopCount(4 * q + 2 * h + l)
              == PopCount(And(q, m)) + PopCount(q) + 2 * h + l
  {
    hide And, PopCount;
    AndBit(q, m, h, 1);
    AndBit(2 * q + h, 2 * m + 1, l, 0);
    assert And(4 * q + 2 * h + l, 4 * m + 2) == 4 * And(q, m) + 2 * h;
    PopCountDigit(And(q, m), h, 0);
    PopCountDigit(q, h, l);
  }

  /** count_ones(v & 0xaa..) + count_ones(v) is the sum of the 2-bit digits. */
  lemma {:induction false} OnesAreDigitSum(v: nat, k: nat)
    requires v < Pow4(k)
    ensures PopCount(And(v, MaskA(k))) + PopCount(v) == DigitSum(v, k)
    decreases k
  {
    hide And, PopCount;
    if k == 0 {
      NoOnes(0);
    } else {
      OnesAreDigitSum(v / 4, k - 1);
      OnesStep(v / 4, MaskA(k - 1), v / 2 % 2, v % 2);
      assert v == 4 * (v / 4) + 2 * (v / 2 % 2) + v % 2;
    }
  }

  lemma OrStep(a: nat, b: nat)
    ensures Or(a, b) == 2 * Or(a / 2, b / 2) + (if a % 2 == 1 || b % 2 == 1 then 1 else 0)
  {
  }

  lemma OrBit(a: nat, b: nat, x: nat, y: nat)
    requires x < 2 && y < 2
    ensures Or(2 * a + x, 2 * b + y) == 2 * Or(a, b) + (if x == 1 || y == 1 then 1 else 0)
  {
    OrStep(2 * a + x, 2 * b + y);
    assert (2 * a + x) / 2 == a && (2 * b + y) / 2 == b;
    assert (2 * a + x) % 2 == x && (2 * b + y) % 2 == y;
  }

  lemma Halves(v: nat) returns (q: nat, h: nat, l: nat)
    ensures h < 2 && l < 2 && v == 4 * q + 2 * h + l && v / 4 == q && v % 4 == 2 * h + l
  {
    q, h, l := v / 4, v / 2 % 2, v % 2;
  }

  lemma AndQuarter(a: nat, b: nat)
    ensures And(a, b) == 4 * And(a / 4, b / 4) + And(a % 4, b % 4) && And(a % 4, b % 4) < 4
  {
    hide And;
    var q, h, l := Halves(a);
    var q', h', l' := Halves(b);
    AndBit(q, q', h, h'); AndBit(2 * q + h, 2 * q' + h', l, l');
    AndBit(0, 0, h, h'); AndBit(h, h', l, l'); AndZero();
  }

  lemma AndZero()
    ensures And(0, 0) == 0 && Or(0, 0) == 0
  {
  }

  lemma OrQuarter(a: nat, b: nat)
    ensures Or(a, b) == 4 * Or(a / 4, b / 4) + Or(a % 4, b % 4) && Or(a % 4, b % 4) < 4
  {
    hide Or;
    var q, h, l := Halves(a);
    var q', h', l' := Halves(b);
    OrBit(q, q', h, h'); OrBit(2 * q + h, 2 * q' + h', l, l');
    OrBit(0, 0, h, h'); OrBit(h, h', l, l'); AndZero();
  }

  lemma {:induction false} AndDigit(a: nat, b: nat, i: nat)
    ensures Digit(And(a, b), i) == And(Digit(a, i), Digit(b, i))
    decreases i
  {
    hide And;
    AndQuarter(a, b);
    if i > 0 { AndDigit(a / 4, b / 4, i - 1); }
  }

  lemma {:induction false} OrDigit(a: nat, b: nat, i: nat)
    ensures Digit(Or(a, b), i) == Or(Digit(a, i), Digit(b, i))
    decreases i
  {
    hide Or;
    OrQuarter(a, b);
    if i > 0 { OrDigit(a / 4, b / 4, i - 1); }
  }

  lemma {:induction false} OrBelow(a: nat, b: nat, k: nat)
    requires a < Pow4(k) && b < Pow4(k)
    ensures Or(a, b) < Pow4(k)
    decreases k
  {
    hide Or;
    OrQuarter(a, b);
    if k > 0 { OrBelow(a / 4, b / 4, k - 1); } else { AndZero(); }
  }

  /** Or of a low part and a part shifted above it is their sum. */
  lemma {:induction false} OrShl(low: nat, high: nat, n: nat)
    requires low < Pow2(n)
    ensures Or(low, Shl(high, n)) == low + Shl(high, n)
    decreases n
  {
    hide Or;
    if n == 0 {
      OrLeftZero(high);
    } else {
      OrShl(low / 2, high, n - 1);
      OrBit(low / 2, Shl(high, n - 1), low % 2, 0);
    }
  }

  lemma OrLeftZero(a: nat)
    ensures Or(0, a) == a
  {
  }

  lemma OrDisjoint(low: nat, high: nat, n: nat)
    requires low < Pow2(n)
    ensures Or(low, high * Pow2(n)) == low + high * Pow2(n)
  {
    hide Or, Shl, Pow2;
    ShlIs(high, n);
    OrShl(low, high, n);
  }

  /** All ones from digit b up to digit k. */
  function HighMask(b: nat, k: nat): nat
    decreases k
  {
    if k == 0 then 0 else if b == 0 then 3 + 4 * HighMask(0, k - 1) else 4 * HighMask(b - 1, k - 1)
  }

  lemma {:induction false} HighMaskClosed(b: nat, k: nat)
    requires b <= k
    ensures HighMask(b, k) == Pow4(k) - Pow4(b)
    decreases k
  {
    if k > 0 {
      if b == 0 { HighMaskClosed(0, k - 1); } else { HighMaskClosed(b - 1, k - 1); }
    }
  }

  /** `u64::MAX << (b << 1)` in 64 bits. */
  lemma ShiftedOnes(b: nat)
    requires b < 32
    ensures ((TWO64 - 1) * Pow2(2 * b)) % TWO64 == HighMask(b, 32)
  {
    Pow4Pow2(b);
    HighMaskClosed(b, 32);
    Pow4Values();
    Pow4Add(b, 32 - b);
    var p := Pow4(b);
    assert 1 <= p <= TWO64 by { assert p * 1 <= p * Pow4(32 - b); }
    DivUnique((TWO64 - 1) * p, TWO64, p - 1, TWO64 - p);
  }

  lemma OrThree(d: nat)
    requires d < 4
    ensures Or(d, 3) == 3 && Or(d, 0) == d
  {
  }

  /** Setting every digit from b on to 3 leaves exactly the occupied slots below b. */
  lemma {:induction false} MaskedValid(v: nat, b: nat, k: nat)
    requires b <= k
    ensures ValidAmong(Or(v, HighMask(b, k)), k) == ValidAmong(v, b)
    decreases k
  {
    hide Or;
    if k > 0 {
      var h := HighMask(b, k);
      OrQuarter(v, h);
      OrThree(v % 4);
      if b == 0 {
        assert h % 4 == 3 && h / 4 == HighMask(0, k - 1);
        MaskedValid(v / 4, 0, k - 1);
      } else {
        assert h % 4 == 0 && h / 4 == HighMask(b - 1, k - 1);
        MaskedValid(v / 4, b - 1, k - 1);
      }
    }
  }

  lemma {:induction false} DigitSplit(x: nat, y: nat, n: nat, i: nat)
    requires x < Pow4(n)
    ensures Digit(x + Pow4(n) * y, i) == if i < n then Digit(x, i) else Digit(y, i - n)
    decreases n
  {
    if n > 0 {
      var rest := Pow4(n - 1) * y;
      assert Pow4(n) * y == 4 * rest;
      assert (x + 4 * rest) / 4 == x / 4 + rest && (x + 4 * rest) % 4 == x % 4;
      if i > 0 { DigitSplit(x / 4, y, n - 1, i - 1); }
    }
  }

  /** `v & (4^n - 1)` keeps the digits below n. */
  lemma {:induction false} AndLowMask(v: nat, n: nat)
    ensures And(v, Pow4(n) - 1) == v % Pow4(n)
    decreases n
  {
    hide And;
    if n == 0 {
      AndNone(v);
    } else {
      var p := Pow4(n - 1);
      AndQuarter(v, Pow4(n) - 1);
      assert (4 * p - 1) / 4 == p - 1 && (4 * p - 1) % 4 == 3;
      AndLowMask(v / 4, n - 1);
      AndThree(v % 4);
      var q := v / 4;
      assert v == 4 * p * (q / p) + (4 * (q % p) + v % 4) by {
        assert q == p * (q / p) + q % p;
        assert 4 * (p * (q / p)) == 4 * p * (q / p);
      }
      DivUnique(v, 4 * p, q / p, 4 * (q % p) + v % 4);
    }
  }

  lemma AndNone(v: nat)
    ensures And(v, 0) == 0 && v % 1 == 0
  {
  }

  lemma AndThree(d: nat)
    requires d < 4
    ensures And(d, 3) == d
  {
  }

  /** Digits below n do not see what lies above. */
  lemma {:induction false} DigitSumLow(x: nat, y: nat, n: nat)
    ensures DigitSum(x + Pow4(n) * y, n) == DigitSum(x, n)
    decreases n
  {
    if n > 0 {
      var rest := Pow4(n - 1) * y;
      assert Pow4(n) * y == 4 * rest;
      assert (x + 4 * rest) / 4 == x / 4 + rest && (x + 4 * rest) % 4 == x % 4;
      DigitSumLow(x / 4, y, n - 1);
    }
  }

  lemma {:induction false} DigitSumTop(x: nat, n: nat, k: nat)
    requires x < Pow4(n) && n <= k
    ensures DigitSum(x, k) == DigitSum(x, n)
    decreases k
  {
    if n > 0 {
      DigitSumTop(x / 4, n - 1, k - 1);
    } else if k > 0 {
      DigitSumTop(0, 0, k - 1);
    }
  }

  function Count(v: nat, mask: nat): nat {
    PopCount(And(v, mask)) + PopCount(v)
  }

  lemma DivMod(v: nat, p: nat)
    requires p >= 1
    ensures v == v % p + p * (v / p) && v % p < p
  {
  }

  /** The popcount of the digits below n of a k-digit word is their sum. */
  lemma CountBelow(v: nat, n: nat, k: nat)
    requires n <= k && v < Pow4(k)
    ensures Count(And(v, Pow4(n) - 1), MaskA(k)) == DigitSum(v, n)
  {
    hide And, PopCount, DigitSum, MaskA, Pow4;
    AndLowMask(v, n);
    var x, p := v % Pow4(n), Pow4(n);
    DivMod(v, p);
    OnesAreDigitSum(x, k);
    DigitSumLow(x, v / p, n);
    DigitSumTop(x, n, k);
  }

  /** Or works on the low and the high part separately. */
  lemma {:induction false} OrSplit(a: nat, b: nat, c: nat, d: nat, n: nat)
    requires a < Pow2(n) && c < Pow2(n)
    ensures Or(a + Shl(b, n), c + Shl(d, n)) == Or(a, c) + Shl(Or(b, d), n)
    decreases n
  {
    hide Or;
    if n == 0 {
      AndZero();
    } else {
      OrSplit(a / 2, b, c / 2, d, n - 1);
      OrHalves(a, c, Shl(b, n - 1), Shl(d, n - 1));
    }
  }

  lemma {:induction false} ShlZero(n: nat)
    ensures Shl(0, n) == 0
  {
    if n > 0 { ShlZero(n - 1); }
  }

  lemma OrHalves(a: nat, c: nat, x: nat, y: nat)
    ensures Or(a + 2 * x, c + 2 * y) == 2 * Or(a / 2 + x, c / 2 + y) + (Or(a, c) - 2 * Or(a / 2, c / 2))
  {
    hide Or;
    OrBit(a / 2 + x, c / 2 + y, a % 2, c % 2);
    OrBit(a / 2, c / 2, a % 2, c % 2);
  }

  // ----- little-endian bytes

  function LeNat(bytes: seq<u8>): nat {
    if bytes == [] then 0 else bytes[0] + 256 * LeNat(bytes[1..])
  }

  function LeBytes(v: nat, n: nat): (r: seq<u8>)
    ensures |r| == n
  {
    if n == 0 then [] else [v % 256] + LeBytes(v / 256, n - 1)
  }

  function WordBytes(w: u32): (r: seq<u8>)
    ensures |r| == 4
  {
    [w % 256, (w / 0x100) % 256, (w / 0x1_0000) % 256, (w / 0x100_0000) % 256]
  }

  lemma LeFour(a: u8, b: u8, c: u8, d: u8)
    ensures LeNat([a, b, c, d]) == a + 0x100 * b + 0x1_0000 * c + 0x100_0000 * d
  {
    assert [a, b, c, d][1..] == [b, c, d] && [b, c, d][1..] == [c, d] && [c, d][1..] == [d] && [d][1..] == [];
    assert LeNat([d]) == d;
    assert LeNat([c, d]) == c + 256 * d;
    assert LeNat([b, c, d]) == b + 256 * (c + 256 * d);
  }

  lemma WordOfBytes(w: u32)
    ensures LeNat(WordBytes(w)) == w
  {
    hide LeNat;
    LeFour(w % 256, (w / 0x100) % 256, (w / 0x1_0000) % 256, (w / 0x100_0000) % 256);
    WordSplit(w);
  }

  lemma WordSplit(w: u32)
    ensures w == w % 256 + 0x100 * ((w / 0x100) % 256) + 0x1_0000 * ((w / 0x1_0000) % 256)
        + 0x100_0000 * ((w / 0x100_0000) % 256)
  {
    var a, b, c := w / 0x100, w / 0x1_0000, w / 0x100_0000;
    assert a / 256 == b && b / 256 == c && c < 256;
  }
}
