/**
 * Well-formed UTF-8 (the Unicode Standard, table 3-7), the acceptance test
 * that Rust's `str::from_utf8` applies when the rlp crate decodes a `String`.
 */
module Utf8 {
  import opened Bytes

  predicate IsContinuation(b: byte) {
    0x80 <= b <= 0xbf
  }

  /**
   * The length of the well-formed UTF-8 sequence at the head of `s`,
   * or 0 when `s` does not start with one.
   */
  function HeadLength(s: seq<byte>): (n: nat)
    ensures n <= |s| && n <= 4
    ensures s != [] && s[0] < 0x80 ==> n == 1
  {
    if s == [] then 0
    else
      var b := s[0];
      if b < 0x80 then 1
      else if 0xc2 <= b <= 0xdf then
        if |s| >= 2 && IsContinuation(s[1]) then 2 else 0
      else if 0xe0 <= b <= 0xef then
        var lo := if b == 0xe0 then 0xa0 else 0x80;
        var hi := if b == 0xed then 0x9f else 0xbf;
        if |s| >= 3 && lo <= s[1] <= hi && IsContinuation(s[2]) then 3 else 0
      else if 0xf0 <= b <= 0xf4 then
        var lo := if b == 0xf0 then 0x90 else 0x80;
        var hi := if b == 0xf4 then 0x8f else 0xbf;
        if |s| >= 4 && lo <= s[1] <= hi && IsContinuation(s[2]) && IsContinuation(s[3]) then 4 else 0
      else 0
  }

  /** `s` is a concatenation of well-formed UTF-8 sequences. */
  predicate ValidUtf8(s: seq<byte>)
    decreases |s|
  {
    s == [] || (HeadLength(s) > 0 && ValidUtf8(s[HeadLength(s)..]))
  }

  /** A Unicode scalar value: a code point that is not a surrogate. */
  predicate IsScalar(c: nat) {
    c < 0xd800 || 0xe000 <= c < 0x11_0000
  }

  /** The UTF-8 encoding of one scalar value. */
  function EncodeScalar(c: nat): (r: seq<byte>)
    requires IsScalar(c)
    ensures 1 <= |r| <= 4
  {
    if c < 0x80 then [c]
    else if c < 0x800 then [0xc0 + c / 64, 0x80 + c % 64]
    else if c < 0x1_0000 then [0xe0 + c / 4096, 0x80 + (c / 64) % 64, 0x80 + c % 64]
    else [0xf0 + c / 262144, 0x80 + (c / 4096) % 64, 0x80 + (c / 64) % 64, 0x80 + c % 64]
  }

  /** The UTF-8 encoding of a sequence of scalar values. */
  function EncodeScalars(cs: seq<nat>): (bs: seq<byte>)
    requires forall i :: 0 <= i < |cs| ==> IsScalar(cs[i])
  {
    if cs == [] then [] else EncodeScalar(cs[0]) + EncodeScalars(cs[1..])
  }

  /** The encoding of one scalar value is read back as exactly one sequence. */
  lemma EncodeScalarHead(c: nat, rest: seq<byte>)
    requires IsScalar(c)
    ensures HeadLength(EncodeScalar(c) + rest) == |EncodeScalar(c)|
  {
    if c < 0x80 {
    } else if c < 0x800 {
      TwoByteHead(c, rest);
    } else if c < 0x1_0000 {
      ThreeByteHead(c, rest);
    } else {
      FourByteHead(c, rest);
    }
  }

  /** Code points from 0x80 to 0x7ff: a lead byte 0xc2..0xdf and one continuation byte. */
  lemma TwoByteHead(c: nat, rest: seq<byte>)
    requires 0x80 <= c < 0x800
    ensures HeadLength(EncodeScalar(c) + rest) == 2
  {
    assert c / 64 >= 2;
    var s := EncodeScalar(c) + rest;
    assert s[0] == 0xc0 + c / 64 && s[1] == 0x80 + c % 64;
  }

  /** Code points from 0x800 to 0xffff without the surrogates: the second byte stays in the range table 3-7 allows. */
  lemma ThreeByteHead(c: nat, rest: seq<byte>)
    requires 0x800 <= c < 0x1_0000 && IsScalar(c)
    ensures HeadLength(EncodeScalar(c) + rest) == 3
  {
    assert c / 4096 == 0 ==> (c / 64) % 64 >= 0x20;
    assert c / 4096 == 0xd ==> (c / 64) % 64 < 0x20;
    var s := EncodeScalar(c) + rest;
    assert s[0] == 0xe0 + c / 4096 && s[1] == 0x80 + (c / 64) % 64 && s[2] == 0x80 + c % 64;
  }

  /** Code points from 0x10000 to 0x10ffff: lead byte 0xf0..0xf4, second byte in the range table 3-7 allows. */
  lemma FourByteHead(c: nat, rest: seq<byte>)
    requires 0x1_0000 <= c < 0x11_0000
    ensures HeadLength(EncodeScalar(c) + rest) == 4
  {
    assert c / 262144 <= 4;
    assert c / 262144 == 0 ==> (c / 4096) % 64 >= 0x10;
    assert c / 262144 == 4 ==> (c / 4096) % 64 < 0x10;
    var s := EncodeScalar(c) + rest;
    assert s[0] == 0xf0 + c / 262144 && s[1] == 0x80 + (c / 4096) % 64;
    assert s[2] == 0x80 + (c / 64) % 64 && s[3] == 0x80 + c % 64;
  }

  /** Every string Rust builds from scalar values passes `from_utf8`. */
  lemma {:induction false} EncodeIsValid(cs: seq<nat>)
    requires forall i :: 0 <= i < |cs| ==> IsScalar(cs[i])
    ensures ValidUtf8(EncodeScalars(cs))
  {
    if cs != [] {
      var head := EncodeScalar(cs[0]);
      EncodeScalarHead(cs[0], EncodeScalars(cs[1..]));
      EncodeIsValid(cs[1..]);
      assert (head + EncodeScalars(cs[1..]))[|head|..] == EncodeScalars(cs[1..]);
    }
  }
}
