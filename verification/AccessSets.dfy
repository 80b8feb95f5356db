/** The access bitset of a mutable message: one bit per field id in 64-bit words. */
module AccessSets {
  import opened Bits

  function Bit(v: nat, b: nat): bool
    decreases b
  {
    if b == 0 then v % 2 == 1 else Bit(v / 2, b - 1)
  }

  /** accessed[id / 64] & (1 << id % 64) != 0 */
  predicate Has(accessed: seq<u64>, id: nat) {
    id / 64 < |accessed| && And(accessed[id / 64], Pow2(id % 64)) != 0
  }

  predicate AnyAccessed(accessed: seq<u64>) {
    exists i :: 0 <= i < |accessed| && accessed[i] != 0
  }

  /** The fewest words with a bit for each of `n` ids. */
  function WordsFor(n: nat): (words: nat)
    ensures n <= 64 * words < n + 64
  {
    (n + 63) / 64
  }

  lemma {:induction false} TestBit(v: nat, b: nat)
    ensures And(v, Pow2(b)) != 0 <==> Bit(v, b)
    decreases b
  {
    if b > 0 {
      TestBit(v / 2, b - 1);
      assert Pow2(b) % 2 == 0 && Pow2(b) / 2 == Pow2(b - 1);
    } else {
      assert And(v, 1) == if v == 0 then 0 else 2 * And(v / 2, 0) + v % 2;
    }
  }

  lemma {:induction false} SetBit(v: nat, b: nat, j: nat)
    ensures Bit(Or(v, Pow2(b)), j) <==> Bit(v, j) || j == b
    decreases b
  {
    if v == 0 {
      PowerBit(b, j);
      ZeroBit(j);
    } else if b > 0 {
      assert Pow2(b) % 2 == 0 && Pow2(b) / 2 == Pow2(b - 1);
      if j > 0 { SetBit(v / 2, b - 1, j - 1); }
    } else {
      assert Or(v, 1) == 2 * Or(v / 2, 0) + 1;
      assert Or(v / 2, 0) == v / 2;
    }
  }

  lemma {:induction false} PowerBit(b: nat, j: nat)
    ensures Bit(Pow2(b), j) <==> j == b
    decreases b
  {
    if b > 0 {
      assert Pow2(b) % 2 == 0 && Pow2(b) / 2 == Pow2(b - 1);
      if j > 0 { PowerBit(b - 1, j - 1); }
    } else if j > 0 {
      ZeroBit(j - 1);
    }
  }

  lemma {:induction false} ZeroBit(j: nat)
    ensures !Bit(0, j)
    decreases j
  {
    if j > 0 { ZeroBit(j - 1); }
  }

  lemma {:induction false} SomeBit(v: nat, n: nat)
    requires 0 < v < Pow2(n)
    ensures exists b :: 0 <= b < n && Bit(v, b)
    decreases n
  {
    if v % 2 == 1 {
      assert Bit(v, 0);
    } else {
      SomeBit(v / 2, n - 1);
      var b :| 0 <= b < n - 1 && Bit(v / 2, b);
      assert Bit(v, b + 1);
    }
  }

  lemma {:induction false} StaysInWord(v: nat, b: nat, n: nat)
    requires v < Pow2(n) && b < n
    ensures Or(v, Pow2(b)) < Pow2(n)
    decreases n
  {
    if v != 0 && b > 0 {
      assert Pow2(b) % 2 == 0 && Pow2(b) / 2 == Pow2(b - 1);
      StaysInWord(v / 2, b - 1, n - 1);
    } else if b > 0 {
      StaysInWord(0, b - 1, n - 1);
    } else if v != 0 {
      assert Or(v, 1) == 2 * Or(v / 2, 0) + 1;
      assert Or(v / 2, 0) == v / 2;
    }
  }

  lemma WordBits()
    ensures Pow2(64) == TWO64
  {
    Pow4Pow2(32);
    Pow4Values();
  }

  /** No word is set exactly when no id is. */
  lemma AnyIsSome(accessed: seq<u64>)
    ensures AnyAccessed(accessed) <==> exists id: nat :: Has(accessed, id)
  {
    hide And, Bit;
    if AnyAccessed(accessed) {
      var i :| 0 <= i < |accessed| && accessed[i] != 0;
      WordBits();
      SomeBit(accessed[i], 64);
      var b :| 0 <= b < 64 && Bit(accessed[i], b);
      TestBit(accessed[i], b);
      var id: nat := 64 * i + b;
      assert id / 64 == i && id % 64 == b;
      assert Has(accessed, id);
    }
    if id: nat :| Has(accessed, id) {
      ZeroHas(id % 64);
    }
  }

  lemma ZeroHas(b: nat)
    ensures And(0, Pow2(b)) == 0
  {
  }

  /** The word of `id` with its bit set. */
  function WithBit(accessed: seq<u64>, id: nat): (r: seq<u64>)
    requires id / 64 < |accessed|
    ensures |r| == |accessed|
  {
    WordBits();
    StaysInWord(accessed[id / 64], id % 64, 64);
    accessed[id / 64 := Or(accessed[id / 64], Pow2(id % 64))]
  }

  /** Setting a bit adds exactly that id. */
  lemma WithBitAdds(accessed: seq<u64>, id: nat, other: nat)
    requires id / 64 < |accessed|
    ensures Has(WithBit(accessed, id), other) <==> Has(accessed, other) || other == id
  {
    hide And, Or, Bit, Pow2;
    if other / 64 == id / 64 {
      var v := accessed[id / 64];
      SetBit(v, id % 64, other % 64);
      TestBit(v, other % 64);
      TestBit(Or(v, Pow2(id % 64)), other % 64);
    }
  }

  lemma NothingSet(n: nat, id: nat)
    ensures !Has(seq(n, _ => 0), id)
  {
    if id / 64 < n { ZeroHas(id % 64); }
  }
}
