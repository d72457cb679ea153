/**
 * RLP, the Recursive Length Prefix encoding defined in appendix B of the
 * Ethereum Yellow Paper.
 *
 * This module models the external `rlp` crate that the receipt decoder
 * calls, not code of the repository itself: the item tree it parses, the
 * encoder of appendix B (whose output is what `Rlp::as_raw` returns for a
 * canonically encoded item) and a canonical reader that inverts it.
 */
module Rlp {
  import opened Wrappers
  import opened Bytes

  /** A parsed RLP item: a byte string or a list of items. */
  datatype Item = Data(bytes: seq<byte>) | List(items: seq<Item>)

  /** The `rlp::DecoderError` kinds the model can produce. */
  datatype DecoderError =
    | RlpIsTooShort
    | RlpIsTooBig
    | RlpExpectedToBeList
    | RlpExpectedToBeData
    | RlpInvalidIndirection
    | RlpDataLenWithZeroPrefix

  /** Length of the header that precedes a payload of `len` bytes. */
  function HeaderLength(len: nat): (n: nat) {
    if len < 56 then 1 else 1 + |MinimalBe(len)|
  }

  /** Length of the encoding of `it`; defined for every item, encodable or not. */
  function EncodedLength(it: Item): (n: nat) {
    match it
    case Data(b) => if |b| == 1 && b[0] < 0x80 then 1 else HeaderLength(|b|) + |b|
    case List(cs) => HeaderLength(PayloadLength(cs)) + PayloadLength(cs)
  }

  /** Length of the concatenated encodings of `cs`: a list's payload. */
  function PayloadLength(cs: seq<Item>): (n: nat) {
    if cs == [] then 0 else EncodedLength(cs[0]) + PayloadLength(cs[1..])
  }

  /**
   * Appendix B encodes only strings and payloads shorter than 2^64 bytes;
   * every item the crate parses out of a buffer in memory meets this bound.
   */
  predicate Encodable(it: Item) {
    match it
    case Data(b) => |b| < LengthBound
    case List(cs) => (forall i | 0 <= i < |cs| :: Encodable(cs[i])) && PayloadLength(cs) < LengthBound
  }

  predicate AllEncodable(cs: seq<Item>) {
    forall i | 0 <= i < |cs| :: Encodable(cs[i])
  }

  /** The header of a string (`offset` 0x80) or a list (`offset` 0xc0) with a payload of `len` bytes. */
  function Header(len: nat, offset: byte): (h: seq<byte>)
    requires len < LengthBound
    requires offset == 0x80 || offset == 0xc0
    ensures |h| == HeaderLength(len) && 1 <= |h| <= 9
  {
    if len < 56 then [offset + len]
    else
      MinimalBeFits(len, 8);
      Pow256Eight();
      [offset + 55 + |MinimalBe(len)|] + MinimalBe(len)
  }

  /** RLP(it), appendix B of the Yellow Paper. */
  function Encode(it: Item): (r: seq<byte>)
    requires Encodable(it)
    ensures |r| == EncodedLength(it)
  {
    match it
    case Data(b) =>
      if |b| == 1 && b[0] < 0x80 then b else Header(|b|, 0x80) + b
    case List(cs) =>
      var payload := EncodeSeq(cs);
      Header(|payload|, 0xc0) + payload
  }

  /** The concatenation of the encodings of `cs`. */
  function EncodeSeq(cs: seq<Item>): (r: seq<byte>)
    requires AllEncodable(cs)
    ensures |r| == PayloadLength(cs)
  {
    if cs == [] then [] else Encode(cs[0]) + EncodeSeq(cs[1..])
  }

  /**
   * Reads the header of the string or list at the front of `bs`, whose
   * first byte lies in [offset, offset + 64), and checks that the payload
   * fits: returns (header length, payload length). Long-form lengths with
   * a leading zero byte or below 56 are rejected as non-canonical.
   */
  function ReadHeader(bs: seq<byte>, offset: byte): (r: Result<(nat, nat), DecoderError>)
    requires offset == 0x80 || offset == 0xc0
    requires bs != [] && offset <= bs[0] < offset + 64
    ensures r.Success? ==> 1 <= r.value.0 && r.value.0 + r.value.1 <= |bs|
  {
    var short := bs[0] - offset;
    if short <= 55 then
      if 1 + short <= |bs| then Success((1, short)) else Failure(RlpIsTooShort)
    else
      var lenOfLen := short - 55;
      if |bs| < 2 then Failure(RlpIsTooShort)
      else if bs[1] == 0 then Failure(RlpDataLenWithZeroPrefix)
      else if |bs| < 1 + lenOfLen then Failure(RlpIsTooShort)
      else
        var len := BeValue(bs[1..1 + lenOfLen]);
        if len <= 55 then Failure(RlpInvalidIndirection)
        else if 1 + lenOfLen + len > |bs| then Failure(RlpIsTooShort)
        else Success((1 + lenOfLen, len))
  }

  /** Reads one item from the front of `bs`: the item and the number of bytes it took. */
  function Read(bs: seq<byte>): (r: Result<(Item, nat), DecoderError>)
    ensures r.Success? ==> 1 <= r.value.1 <= |bs|
    decreases |bs|, 0
  {
    if bs == [] then Failure(RlpIsTooShort)
    else if bs[0] < 0x80 then Success((Data([bs[0]]), 1))
    else if bs[0] < 0xc0 then
      var hd :- ReadHeader(bs, 0x80);
      var payload := bs[hd.0..hd.0 + hd.1];
      if hd.1 == 1 && payload[0] < 0x80 then Failure(RlpInvalidIndirection)
      else Success((Data(payload), hd.0 + hd.1))
    else
      var hd :- ReadHeader(bs, 0xc0);
      var items :- ReadItems(bs[hd.0..hd.0 + hd.1]);
      Success((List(items), hd.0 + hd.1))
  }

  /** Reads a list payload: items one after the other until the payload is used up. */
  function ReadItems(ps: seq<byte>): (r: Result<seq<Item>, DecoderError>)
    decreases |ps|, 1
  {
    if ps == [] then Success([])
    else
      var first :- Read(ps);
      var rest :- ReadItems(ps[first.1..]);
      Success([first.0] + rest)
  }

  /** The reader finds the length that `Header` wrote, whatever follows the payload. */
  lemma HeaderRead(len: nat, offset: byte, tail: seq<byte>)
    requires len < LengthBound && len <= |tail|
    requires offset == 0x80 || offset == 0xc0
    ensures var bs := Header(len, offset) + tail;
            offset <= bs[0] < offset + 64 &&
            ReadHeader(bs, offset) == Success((|Header(len, offset)|, len))
  {
    var h := Header(len, offset);
    var bs := h + tail;
    if len >= 56 {
      var lb := MinimalBe(len);
      MinimalBeIsMinimal(len);
      MinimalBeFits(len, 8);
      Pow256Eight();
      assert bs[1..1 + |lb|] == lb;
    }
  }

  /** A header the reader accepts is the one `Header` writes for that length. */
  lemma ReadHeaderIsHeader(bs: seq<byte>, offset: byte)
    requires offset == 0x80 || offset == 0xc0
    requires bs != [] && offset <= bs[0] < offset + 64
    requires ReadHeader(bs, offset).Success?
    ensures var hd := ReadHeader(bs, offset).value;
            hd.1 < LengthBound && bs[..hd.0] == Header(hd.1, offset)
  {
    if bs[0] - offset > 55 {
      ReadLongHeaderIsHeader(bs, offset);
    }
  }

  /** The long form of `ReadHeaderIsHeader`: a length of more than 55 bytes. */
  lemma ReadLongHeaderIsHeader(bs: seq<byte>, offset: byte)
    requires offset == 0x80 || offset == 0xc0
    requires bs != [] && offset + 55 < bs[0] < offset + 64
    requires ReadHeader(bs, offset).Success?
    ensures var hd := ReadHeader(bs, offset).value;
            hd.1 < LengthBound && bs[..hd.0] == Header(hd.1, offset)
  {
    var lenOfLen := bs[0] - offset - 55;
    var lenBytes := bs[1..1 + lenOfLen];
    var len := BeValue(lenBytes);
    assert ReadHeader(bs, offset) == Success((1 + lenOfLen, len));
    assert len < LengthBound by {
      BeValueBound(lenBytes);
      Pow256Monotone(lenOfLen, 8);
      Pow256Eight();
    }
    MinimalBeOfBeValue(lenBytes);
    assert Header(len, offset) == [offset + 55 + lenOfLen] + lenBytes;
    assert bs[..1 + lenOfLen] == [bs[0]] + lenBytes;
  }

  /** The first byte of an encoding tells a list (0xc0 and above) from a string. */
  lemma EncodeFirstByte(it: Item)
    requires Encodable(it)
    ensures it.List? <==> Encode(it)[0] >= 0xc0
  {
    match it
    case Data(b) =>
      if !(|b| == 1 && b[0] < 0x80) && |b| >= 56 {
        MinimalBeFits(|b|, 8);
        Pow256Eight();
      }
    case List(cs) =>
  }

  /** The reader inverts the encoder, whatever bytes follow the encoding. */
  lemma {:induction false} ReadEncode(it: Item, rest: seq<byte>)
    requires Encodable(it)
    ensures Read(Encode(it) + rest) == Success((it, |Encode(it)|))
    decreases it, 1
  {
    match it
    case Data(b) =>
      ReadEncodeData(b, rest);
    case List(cs) =>
      ReadItemsEncodeSeq(cs);
      ReadEncodeList(cs, rest);
  }

  /** `ReadEncode` for a byte string. */
  lemma ReadEncodeData(b: seq<byte>, rest: seq<byte>)
    requires Encodable(Data(b))
    ensures Read(Encode(Data(b)) + rest) == Success((Data(b), |Encode(Data(b))|))
  {
    var bs := Encode(Data(b)) + rest;
    if |b| == 1 && b[0] < 0x80 {
      assert [bs[0]] == b;
    } else {
      HeaderRead(|b|, 0x80, b + rest);
      assert bs == Header(|b|, 0x80) + (b + rest);
      var h := |Header(|b|, 0x80)|;
      assert bs[h..h + |b|] == b;
    }
  }

  /** One level of a list: a payload the reader splits back into `cs` gives back `List(cs)`. */
  lemma ReadEncodeList(cs: seq<Item>, rest: seq<byte>)
    requires Encodable(List(cs))
    requires ReadItems(EncodeSeq(cs)) == Success(cs)
    ensures Read(Encode(List(cs)) + rest) == Success((List(cs), |Encode(List(cs))|))
  {
    ListLayout(cs, rest);
    ReadListFrom(Encode(List(cs)), rest, HeaderLength(PayloadLength(cs)), PayloadLength(cs), cs);
  }

  /** Where the reader finds the header and the payload of an encoded list. */
  lemma ListLayout(cs: seq<Item>, rest: seq<byte>)
    requires Encodable(List(cs))
    ensures Encode(List(cs)) + rest != [] && 0xc0 <= (Encode(List(cs)) + rest)[0]
    ensures |Encode(List(cs))| == HeaderLength(PayloadLength(cs)) + PayloadLength(cs)
    ensures ReadHeader(Encode(List(cs)) + rest, 0xc0) == Success((HeaderLength(PayloadLength(cs)), PayloadLength(cs)))
    ensures (Encode(List(cs)) + rest)[HeaderLength(PayloadLength(cs))..HeaderLength(PayloadLength(cs)) + PayloadLength(cs)]
            == EncodeSeq(cs)
  {
    var payload := EncodeSeq(cs);
    assert Encode(List(cs)) + rest == Header(|payload|, 0xc0) + payload + rest;
    HeaderLayout(payload, 0xc0, rest);
  }

  /** Where the reader finds the header and the payload of a header, a payload and trailing bytes. */
  lemma HeaderLayout(payload: seq<byte>, offset: byte, rest: seq<byte>)
    requires |payload| < LengthBound
    requires offset == 0x80 || offset == 0xc0
    ensures var bs := Header(|payload|, offset) + payload + rest;
            offset <= bs[0] < offset + 64 &&
            ReadHeader(bs, offset) == Success((HeaderLength(|payload|), |payload|)) &&
            bs[HeaderLength(|payload|)..HeaderLength(|payload|) + |payload|] == payload
  {
    var h := Header(|payload|, offset);
    HeaderRead(|payload|, offset, payload + rest);
    assert h + payload + rest == h + (payload + rest);
    assert (h + payload + rest)[|h|..|h| + |payload|] == payload;
  }

  /** A list header followed by a payload the reader splits into `cs` reads as `List(cs)`. */
  lemma ReadListFrom(enc: seq<byte>, rest: seq<byte>, h: nat, len: nat, cs: seq<Item>)
    requires enc + rest != [] && 0xc0 <= (enc + rest)[0] && |enc| == h + len
    requires ReadHeader(enc + rest, 0xc0) == Success((h, len))
    requires ReadItems((enc + rest)[h..h + len]) == Success(cs)
    ensures Read(enc + rest) == Success((List(cs), |enc|))
  {
  }

  /** The payload reader splits the encodings of `cs` back into `cs`. */
  lemma {:induction false} ReadItemsEncodeSeq(cs: seq<Item>)
    requires AllEncodable(cs)
    ensures ReadItems(EncodeSeq(cs)) == Success(cs)
    decreases cs, 0
  {
    if cs != [] {
      var ps := EncodeSeq(cs);
      var head := Encode(cs[0]);
      ReadEncode(cs[0], EncodeSeq(cs[1..]));
      assert ps[|head|..] == EncodeSeq(cs[1..]);
      ReadItemsEncodeSeq(cs[1..]);
      assert [cs[0]] + cs[1..] == cs;
    }
  }

  /**
   * The reader accepts only canonical encodings: what it reads is encodable,
   * and the bytes it consumed are exactly the item's encoding.
   */
  lemma {:induction false} EncodeRead(bs: seq<byte>)
    requires Read(bs).Success?
    ensures var r := Read(bs).value;
            Encodable(r.0) && bs[..r.1] == Encode(r.0)
    decreases |bs|, 0
  {
    if bs[0] < 0x80 {
      assert bs[..1] == [bs[0]];
    } else if bs[0] < 0xc0 {
      EncodeReadString(bs);
    } else {
      ReadListInversion(bs);
      var hd := ReadHeader(bs, 0xc0).value;
      var payload := bs[hd.0..hd.0 + hd.1];
      EncodeSeqReadItems(payload);
      EncodeReadList(bs, hd.0, hd.1, ReadItems(payload).value);
    }
  }

  /** `EncodeRead` for a string with a header. */
  lemma EncodeReadString(bs: seq<byte>)
    requires bs != [] && 0x80 <= bs[0] < 0xc0
    requires Read(bs).Success?
    ensures var r := Read(bs).value;
            Encodable(r.0) && bs[..r.1] == Encode(r.0)
  {
    ReadStringInversion(bs);
    var hd := ReadHeader(bs, 0x80).value;
    HeaderPrefix(bs, 0x80, hd.0, hd.1);
    var payload := bs[hd.0..hd.0 + hd.1];
    assert Encode(Data(payload)) == Header(hd.1, 0x80) + payload;
  }

  /** What a successful read of a string with a header returns. */
  lemma ReadStringInversion(bs: seq<byte>)
    requires bs != [] && 0x80 <= bs[0] < 0xc0
    requires Read(bs).Success?
    ensures ReadHeader(bs, 0x80).Success?
    ensures var hd := ReadHeader(bs, 0x80).value;
            !(hd.1 == 1 && bs[hd.0] < 0x80) &&
            Read(bs).value == (Data(bs[hd.0..hd.0 + hd.1]), hd.0 + hd.1)
  {
  }

  /** What a successful read of a list returns. */
  lemma ReadListInversion(bs: seq<byte>)
    requires bs != [] && 0xc0 <= bs[0]
    requires Read(bs).Success?
    ensures ReadHeader(bs, 0xc0).Success?
    ensures var hd := ReadHeader(bs, 0xc0).value;
            ReadItems(bs[hd.0..hd.0 + hd.1]).Success? &&
            Read(bs).value == (List(ReadItems(bs[hd.0..hd.0 + hd.1]).value), hd.0 + hd.1)
  {
  }

  /** A list the reader accepts occupies exactly the bytes of its encoding. */
  lemma EncodeReadList(bs: seq<byte>, h: nat, len: nat, cs: seq<Item>)
    requires bs != [] && 0xc0 <= bs[0]
    requires ReadHeader(bs, 0xc0) == Success((h, len))
    requires AllEncodable(cs) && EncodeSeq(cs) == bs[h..h + len]
    ensures Encodable(List(cs)) && bs[..h + len] == Encode(List(cs))
  {
    HeaderPrefix(bs, 0xc0, h, len);
    assert Encode(List(cs)) == Header(len, 0xc0) + EncodeSeq(cs);
  }

  /** The bytes a header read covers are that header followed by the payload. */
  lemma HeaderPrefix(bs: seq<byte>, offset: byte, h: nat, len: nat)
    requires offset == 0x80 || offset == 0xc0
    requires bs != [] && offset <= bs[0] < offset + 64
    requires ReadHeader(bs, offset) == Success((h, len))
    ensures len < LengthBound && h + len <= |bs|
    ensures bs[..h + len] == Header(len, offset) + bs[h..h + len]
  {
    ReadHeaderIsHeader(bs, offset);
    assert bs[..h + len] == bs[..h] + bs[h..h + len];
  }

  /** A payload the reader splits into items is exactly their concatenated encodings. */
  lemma {:induction false} EncodeSeqReadItems(ps: seq<byte>)
    requires ReadItems(ps).Success?
    ensures var cs := ReadItems(ps).value;
            AllEncodable(cs) && EncodeSeq(cs) == ps
    decreases |ps|, 1
  {
    if ps != [] {
      ReadItemsInversion(ps);
      var first := Read(ps).value;
      EncodeRead(ps);
      EncodeSeqReadItems(ps[first.1..]);
      EncodeSeqSplit(ps, first.0, first.1, ReadItems(ps[first.1..]).value);
    }
  }

  /** A payload that splits into the encoding of `c` and that of `cs` is the encoding of `[c] + cs`. */
  lemma EncodeSeqSplit(ps: seq<byte>, c: Item, n: nat, cs: seq<Item>)
    requires n <= |ps|
    requires Encodable(c) && ps[..n] == Encode(c)
    requires AllEncodable(cs) && EncodeSeq(cs) == ps[n..]
    ensures AllEncodable([c] + cs) && EncodeSeq([c] + cs) == ps
  {
    EncodeSeqCons(c, cs);
    assert ps == ps[..n] + ps[n..];
  }

  /** What a successful read of a non-empty payload returns. */
  lemma ReadItemsInversion(ps: seq<byte>)
    requires ps != [] && ReadItems(ps).Success?
    ensures Read(ps).Success? && ReadItems(ps[Read(ps).value.1..]).Success?
    ensures ReadItems(ps).value == [Read(ps).value.0] + ReadItems(ps[Read(ps).value.1..]).value
  {
  }

  /** The payload of `[c] + cs` is the encoding of `c` followed by that of `cs`. */
  lemma EncodeSeqCons(c: Item, cs: seq<Item>)
    requires Encodable(c) && AllEncodable(cs)
    ensures AllEncodable([c] + cs)
    ensures EncodeSeq([c] + cs) == Encode(c) + EncodeSeq(cs)
  {
    assert ([c] + cs)[0] == c && ([c] + cs)[1..] == cs;
  }
}
