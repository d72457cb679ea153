/**
 * The part of the `rlp` crate's API that the receipt decoder calls:
 * `Rlp::is_empty`, `Rlp::iter`, `Rlp::at`, `Rlp::as_raw`, `Rlp::val_at`
 * and the `Decodable` impls of the field types (`u8`, `u64`, `Vec<u8>`,
 * `H256`, `U256`, `String`), stated on the parsed item tree. This models
 * the library, not code of the repository.
 */
module RlpView {
  import opened Wrappers
  import opened Bytes
  import opened Utf8
  import opened Rlp

  type U8 = x: nat | x < 0x100
  type U64 = x: nat | x < 0x1_0000_0000_0000_0000
  type U256 = x: nat | x < 0x1_0000_0000_0000_0000_0000_0000_0000_0000_0000_0000_0000_0000_0000_0000_0000_0000

  /** A 32-byte hash. */
  type H256 = s: seq<byte> | |s| == 32 witness seq(32, i => 0)

  /** The bytes of a Rust `String`: always well-formed UTF-8. */
  type Utf8String = s: seq<byte> | ValidUtf8(s) witness []

  /** `Rlp::is_empty`: the empty string and the empty list, the placeholders of an export. */
  predicate IsEmpty(rlp: Item) {
    rlp == Data([]) || rlp == List([])
  }

  /** `Rlp::iter`: the children of a list; iterating a string yields nothing. */
  function Iter(rlp: Item): (r: seq<Item>)
    ensures rlp.List? ==> r == rlp.items
    ensures rlp.Data? ==> r == []
  {
    match rlp
    case Data(_) => []
    case List(items) => items
  }

  /** `Rlp::at`: child `i` of a list. */
  function At(rlp: Item, i: nat): (r: Result<Item, DecoderError>)
    ensures r.Success? <==> rlp.List? && i < |rlp.items|
    ensures r.Success? ==> r.value == rlp.items[i]
    ensures rlp.Data? ==> r == Failure(RlpExpectedToBeList)
    ensures rlp.List? && i >= |rlp.items| ==> r == Failure(RlpIsTooShort)
  {
    match rlp
    case Data(_) => Failure(RlpExpectedToBeList)
    case List(items) => if i < |items| then Success(items[i]) else Failure(RlpIsTooShort)
  }

  /** `Rlp::as_raw`: the bytes the item was read from, for a canonical input its encoding. */
  function AsRaw(rlp: Item): (r: seq<byte>)
    requires Encodable(rlp)
    ensures Read(r) == Success((rlp, |r|))
  {
    ReadEncode(rlp, []);
    assert Encode(rlp) + [] == Encode(rlp);
    Encode(rlp)
  }

  /** `at` and `iter` agree: child i exists exactly for the indices `iter` visits, and it is the child visited there. */
  lemma AtAgreesWithIter(rlp: Item, i: nat)
    ensures At(rlp, i).Success? <==> i < |Iter(rlp)|
    ensures i < |Iter(rlp)| ==> At(rlp, i) == Success(Iter(rlp)[i])
  {
  }

  /** `Rlp::val_at`: decodes child `i` with the `Decodable` impl `decode`. */
  function ValAt<T>(rlp: Item, i: nat, decode: Item -> Result<T, DecoderError>): (r: Result<T, DecoderError>)
    ensures r.Success? <==> rlp.List? && i < |rlp.items| && decode(rlp.items[i]).Success?
    ensures r.Success? ==> r == decode(rlp.items[i])
  {
    var child :- At(rlp, i);
    decode(child)
  }

  /** A typed read of child i looks at child i only: two lists that agree there read the same, whatever their other children. */
  lemma ValAtPositional<T>(a: Item, b: Item, i: nat, decode: Item -> Result<T, DecoderError>)
    requires a.List? && b.List? && i < |a.items| && i < |b.items| && a.items[i] == b.items[i]
    ensures ValAt(a, i, decode) == ValAt(b, i, decode)
  {
  }

  /** A typed read of a missing child fails before decoding: a string is no list, a short list is too short. */
  lemma ValAtMissingChild<T>(rlp: Item, i: nat, decode: Item -> Result<T, DecoderError>)
    requires !(rlp.List? && i < |rlp.items|)
    ensures ValAt(rlp, i, decode) == Failure(if rlp.Data? then RlpExpectedToBeList else RlpIsTooShort)
  {
  }

  /**
   * The unsigned-integer `Decodable` impls: a string of at most `width`
   * bytes, big-endian, with no leading zero byte (the empty string is 0).
   */
  function DecodeUint(rlp: Item, width: nat): (r: Result<nat, DecoderError>)
    ensures r.Success? <==> rlp.Data? && |rlp.bytes| <= width && (rlp.bytes == [] || rlp.bytes[0] != 0)
    ensures r.Success? ==> r.value < Pow256(width)
  {
    match rlp
    case List(_) => Failure(RlpExpectedToBeData)
    case Data(bs) =>
      if |bs| > width then Failure(RlpIsTooBig)
      else if bs != [] && bs[0] == 0 then Failure(RlpInvalidIndirection)
      else
        Pow256Monotone(|bs|, width);
        BeValueBound(bs);
        Success(BeValue(bs))
  }

  /** The canonical RLP form of an unsigned integer. */
  function EncodeUint(n: nat): (it: Item) {
    Data(MinimalBe(n))
  }

  /** An integer that fits the width reads back from its canonical form. */
  lemma UintRoundTrip(n: nat, width: nat)
    requires n < Pow256(width)
    ensures DecodeUint(EncodeUint(n), width) == Success(n)
  {
    MinimalBeIsMinimal(n);
    MinimalBeFits(n, width);
  }

  /** Only the canonical form of an integer is accepted. */
  lemma UintCanonical(rlp: Item, width: nat)
    requires DecodeUint(rlp, width).Success?
    ensures rlp == EncodeUint(DecodeUint(rlp, width).value)
  {
    MinimalBeOfBeValue(rlp.bytes);
  }

  function DecodeU8(rlp: Item): (r: Result<U8, DecoderError>) {
    match DecodeUint(rlp, 1)
    case Success(n) => Success(n)
    case Failure(e) => Failure(e)
  }

  function DecodeU64(rlp: Item): (r: Result<U64, DecoderError>) {
    Pow256Eight();
    match DecodeUint(rlp, 8)
    case Success(n) => Success(n)
    case Failure(e) => Failure(e)
  }

  function DecodeU256(rlp: Item): (r: Result<U256, DecoderError>) {
    Pow256ThirtyTwo();
    match DecodeUint(rlp, 32)
    case Success(n) => Success(n)
    case Failure(e) => Failure(e)
  }

  lemma U8RoundTrip(n: U8)
    ensures DecodeU8(EncodeUint(n)) == Success(n)
  {
    UintRoundTrip(n, 1);
  }

  lemma U64RoundTrip(n: U64)
    ensures DecodeU64(EncodeUint(n)) == Success(n)
  {
    Pow256Eight();
    UintRoundTrip(n, 8);
  }

  lemma U256RoundTrip(n: U256)
    ensures DecodeU256(EncodeUint(n)) == Success(n)
  {
    Pow256ThirtyTwo();
    UintRoundTrip(n, 32);
  }

  lemma U8Canonical(rlp: Item)
    requires DecodeU8(rlp).Success?
    ensures rlp == EncodeUint(DecodeU8(rlp).value)
  {
    UintCanonical(rlp, 1);
  }

  lemma U64Canonical(rlp: Item)
    requires DecodeU64(rlp).Success?
    ensures rlp == EncodeUint(DecodeU64(rlp).value)
  {
    UintCanonical(rlp, 8);
  }

  lemma U256Canonical(rlp: Item)
    requires DecodeU256(rlp).Success?
    ensures rlp == EncodeUint(DecodeU256(rlp).value)
  {
    UintCanonical(rlp, 32);
  }

  /** `Vec<u8>`: the bytes of any string. */
  function DecodeBytes(rlp: Item): (r: Result<seq<byte>, DecoderError>)
    ensures r.Success? <==> rlp.Data?
    ensures r.Success? ==> rlp == Data(r.value)
  {
    match rlp
    case List(_) => Failure(RlpExpectedToBeData)
    case Data(bs) => Success(bs)
  }

  /** `H256`: a string of exactly 32 bytes. */
  function DecodeH256(rlp: Item): (r: Result<H256, DecoderError>)
    ensures r.Success? <==> rlp.Data? && |rlp.bytes| == 32
    ensures r.Success? ==> rlp == Data(r.value)
    ensures rlp.List? ==> r == Failure(RlpExpectedToBeData)
    ensures rlp.Data? && |rlp.bytes| < 32 ==> r == Failure(RlpIsTooShort)
    ensures rlp.Data? && |rlp.bytes| > 32 ==> r == Failure(RlpIsTooBig)
  {
    match rlp
    case List(_) => Failure(RlpExpectedToBeData)
    case Data(bs) =>
      if |bs| < 32 then Failure(RlpIsTooShort)
      else if |bs| > 32 then Failure(RlpIsTooBig)
      else Success(bs)
  }

  /** `String`: a string whose bytes are well-formed UTF-8. */
  function DecodeString(rlp: Item): (r: Result<Utf8String, DecoderError>)
    ensures r.Success? <==> rlp.Data? && ValidUtf8(rlp.bytes)
    ensures r.Success? ==> rlp == Data(r.value)
  {
    match rlp
    case List(_) => Failure(RlpExpectedToBeData)
    case Data(bs) => if ValidUtf8(bs) then Success(bs) else Failure(RlpExpectedToBeData)
  }

  /** A byte-vector read inverts `Data`: it returns `b` exactly on the string item holding `b`. */
  lemma BytesReadInverse(rlp: Item, b: seq<byte>)
    ensures DecodeBytes(rlp) == Success(b) <==> rlp == Data(b)
  {
  }

  /** A hash read inverts `Data` on 32-byte strings: it returns `h` exactly on the string item holding `h`. */
  lemma H256ReadInverse(rlp: Item, h: H256)
    ensures DecodeH256(rlp) == Success(h) <==> rlp == Data(h)
  {
  }

  /** A `String` read inverts `Data` on well-formed UTF-8: it returns `s` exactly on the string item holding `s`. */
  lemma StringReadInverse(rlp: Item, s: Utf8String)
    ensures DecodeString(rlp) == Success(s) <==> rlp == Data(s)
  {
  }
}
