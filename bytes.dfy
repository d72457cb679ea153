/**
 * Octets and the big-endian unsigned integers that the rlp crate reads
 * from (and writes to) byte strings.
 */
module Bytes {

  /** An octet, as Rust's `u8`. */
  type byte = x: nat | x < 256

  /** 256^n: the number of distinct values an n-byte big-endian string holds. */
  function Pow256(n: nat): (r: nat)
    ensures 1 <= r
  {
    if n == 0 then 1 else 256 * Pow256(n - 1)
  }

  /** 2^64: one more than the largest length the rlp crate can represent. */
  const LengthBound: nat := 0x1_0000_0000_0000_0000

  lemma Pow256Eight()
    ensures Pow256(8) == LengthBound
  {
    assert Pow256(2) == 0x1_0000;
    assert Pow256(4) == 0x1_0000_0000;
    assert Pow256(8) == 0x1_0000_0000_0000_0000;
  }

  lemma {:induction false} Pow256Monotone(a: nat, b: nat)
    requires a <= b
    ensures Pow256(a) <= Pow256(b)
    decreases b
  {
    if a < b {
      Pow256Monotone(a, b - 1);
    }
  }

  /** The unsigned integer whose big-endian representation is `bs`. */
  function BeValue(bs: seq<byte>): (v: nat) {
    if bs == [] then 0 else BeValue(bs[..|bs| - 1]) * 256 + bs[|bs| - 1]
  }

  /** A big-endian string of n bytes holds a value below 256^n. */
  lemma {:induction false} BeValueBound(bs: seq<byte>)
    ensures BeValue(bs) < Pow256(|bs|)
  {
    if bs != [] {
      var init := bs[..|bs| - 1];
      BeValueBound(init);
      assert BeValue(init) * 256 <= (Pow256(|init|) - 1) * 256;
    }
  }

  /** A big-endian string whose first byte is non-zero is at least 256^(len-1). */
  lemma {:induction false} BeValueLower(bs: seq<byte>)
    requires bs != [] && bs[0] != 0
    ensures Pow256(|bs| - 1) <= BeValue(bs)
  {
    if |bs| > 1 {
      var init := bs[..|bs| - 1];
      assert init[0] == bs[0];
      BeValueLower(init);
    }
  }

  /**
   * The shortest big-endian representation of `n`: no leading zero byte,
   * and the empty string for zero (`MinimalBeIsMinimal`).
   */
  function MinimalBe(n: nat): (bs: seq<byte>) {
    if n == 0 then [] else MinimalBe(n / 256) + [n % 256]
  }

  /** `MinimalBe(n)` represents `n`, has no leading zero, and is empty only for zero. */
  lemma {:induction false} MinimalBeIsMinimal(n: nat)
    ensures BeValue(MinimalBe(n)) == n
    ensures MinimalBe(n) == [] || MinimalBe(n)[0] != 0
    ensures MinimalBe(n) == [] <==> n == 0
  {
    if n > 0 {
      var r := MinimalBe(n);
      MinimalBeIsMinimal(n / 256);
      assert r[..|r| - 1] == MinimalBe(n / 256);
      if n / 256 != 0 {
        assert r[0] == MinimalBe(n / 256)[0];
      }
    }
  }

  /** Reading a string without a leading zero and writing the value back yields that string. */
  lemma {:induction false} MinimalBeOfBeValue(bs: seq<byte>)
    requires bs == [] || bs[0] != 0
    ensures MinimalBe(BeValue(bs)) == bs
  {
    if bs != [] {
      var init := bs[..|bs| - 1];
      var v := BeValue(bs);
      BeValueLower(bs);
      assert v > 0;
      assert v / 256 == BeValue(init) && v % 256 == bs[|bs| - 1];
      if init != [] {
        assert init[0] == bs[0];
      }
      MinimalBeOfBeValue(init);
      assert init + [bs[|bs| - 1]] == bs;
    }
  }

  /** The minimal representation of n fits in k bytes exactly when n < 256^k. */
  lemma MinimalBeFits(n: nat, k: nat)
    ensures |MinimalBe(n)| <= k <==> n < Pow256(k)
  {
    var r := MinimalBe(n);
    MinimalBeIsMinimal(n);
    BeValueBound(r);
    if |r| <= k {
      Pow256Monotone(|r|, k);
    } else {
      BeValueLower(r);
      Pow256Monotone(k, |r| - 1);
    }
  }

  /** 256^32 = 2^256, the bound of a 256-bit integer. */
  lemma Pow256ThirtyTwo()
    ensures Pow256(32) == 0x1_0000_0000_0000_0000_0000_0000_0000_0000_0000_0000_0000_0000_0000_0000_0000_0000
  {
    Pow256Eight();
    assert Pow256(16) == Pow256(8) * Pow256(8) by { Pow256Add(8, 8); }
    assert Pow256(32) == Pow256(16) * Pow256(16) by { Pow256Add(16, 16); }
  }

  lemma {:induction false} Pow256Add(a: nat, b: nat)
    ensures Pow256(a + b) == Pow256(a) * Pow256(b)
    decreases b
  {
    if b > 0 {
      Pow256Add(a, b - 1);
    }
  }
}
