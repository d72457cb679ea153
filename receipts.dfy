/**
 * The receipt-export decoder of `src/cli/receipts.rs`: the 16-field
 * `Receipt` record, `Receipt::decode` (a positional read of one list item),
 * `Receipt::decode_receipt_vec` (the depth-first walk that flattens
 * receipts wrapped in list layers of unknown depth) and the pure part of
 * `Receipt::from_file`.
 */
module Receipts {
  import opened Wrappers
  import opened Bytes
  import opened Rlp
  import opened RlpView

  /** One transaction receipt of the export, fields in their positional order. */
  datatype Receipt = Receipt(
    ty: U8,
    postState: seq<byte>,
    status: U64,
    cumulativeGasUsed: U64,
    bloom: seq<byte>,
    logs: seq<byte>,
    txHash: H256,
    contractAddress: Utf8String,
    gasUsed: U64,
    blockHash: H256,
    blockNumber: U256,
    transactionIndex: U64,
    l1GasPrice: U256,
    l1GasUsed: U256,
    l1Fee: U256,
    l1FeeScalar: Utf8String)

  /**
   * Children 0..15 of `items` all pass the typed reads of their fields.
   * Field 5, the logs, is copied raw, so any child passes it.
   */
  predicate FieldsDecode(items: seq<Item>)
    requires |items| >= 16
  {
    DecodeU8(items[0]).Success? && DecodeBytes(items[1]).Success? &&
    DecodeU64(items[2]).Success? && DecodeU64(items[3]).Success? &&
    DecodeBytes(items[4]).Success? && DecodeH256(items[6]).Success? &&
    DecodeString(items[7]).Success? && DecodeU64(items[8]).Success? &&
    DecodeH256(items[9]).Success? && DecodeU256(items[10]).Success? &&
    DecodeU64(items[11]).Success? && DecodeU256(items[12]).Success? &&
    DecodeU256(items[13]).Success? && DecodeU256(items[14]).Success? &&
    DecodeString(items[15]).Success?
  }

  /**
   * `Receipt::decode`: reads children 0..15 of a list in order; fails on
   * the first child that is missing or does not decode. Children from
   * index 16 on are never looked at, and the logs are the raw encoding of
   * child 5, whatever its shape.
   */
  function DecodeReceipt(rlp: Item): (r: Result<Receipt, DecoderError>)
    requires Encodable(rlp)
  {
    var ty :- ValAt(rlp, 0, DecodeU8);
    var postState :- ValAt(rlp, 1, DecodeBytes);
    var status :- ValAt(rlp, 2, DecodeU64);
    var cumulativeGasUsed :- ValAt(rlp, 3, DecodeU64);
    var bloom :- ValAt(rlp, 4, DecodeBytes);
    var logs :- At(rlp, 5);
    var txHash :- ValAt(rlp, 6, DecodeH256);
    var contractAddress :- ValAt(rlp, 7, DecodeString);
    var gasUsed :- ValAt(rlp, 8, DecodeU64);
    var blockHash :- ValAt(rlp, 9, DecodeH256);
    var blockNumber :- ValAt(rlp, 10, DecodeU256);
    var transactionIndex :- ValAt(rlp, 11, DecodeU64);
    var l1GasPrice :- ValAt(rlp, 12, DecodeU256);
    var l1GasUsed :- ValAt(rlp, 13, DecodeU256);
    var l1Fee :- ValAt(rlp, 14, DecodeU256);
    var l1FeeScalar :- ValAt(rlp, 15, DecodeString);
    Success(Receipt(ty, postState, status, cumulativeGasUsed, bloom, AsRaw(logs),
                    txHash, contractAddress, gasUsed, blockHash, blockNumber,
                    transactionIndex, l1GasPrice, l1GasUsed, l1Fee, l1FeeScalar))
  }

  /**
   * `Receipt::decode` succeeds exactly on a list whose first 16 children
   * pass their field reads; a string fails as not being a list.
   */
  lemma DecodeReceiptSucceeds(rlp: Item)
    requires Encodable(rlp)
    ensures DecodeReceipt(rlp).Success? <==> IsReceipt(rlp)
    ensures rlp.Data? ==> DecodeReceipt(rlp) == Failure(RlpExpectedToBeList)
  {
    if DecodeReceipt(rlp).Success? {
      DecodeReceiptNeedsShape(rlp);
    }
    if IsReceipt(rlp) {
      DecodeReceiptValue(rlp);
    }
  }

  /** Every read `Receipt::decode` makes must succeed for it to succeed. */
  lemma DecodeReceiptNeedsShape(rlp: Item)
    requires Encodable(rlp) && DecodeReceipt(rlp).Success?
    ensures IsReceipt(rlp)
  {
    assert ValAt(rlp, 0, DecodeU8).Success?;
    assert ValAt(rlp, 1, DecodeBytes).Success?;
    assert ValAt(rlp, 2, DecodeU64).Success?;
    assert ValAt(rlp, 3, DecodeU64).Success?;
    assert ValAt(rlp, 4, DecodeBytes).Success?;
    assert At(rlp, 5).Success?;
    assert ValAt(rlp, 6, DecodeH256).Success?;
    assert ValAt(rlp, 7, DecodeString).Success?;
    assert ValAt(rlp, 8, DecodeU64).Success?;
    assert ValAt(rlp, 9, DecodeH256).Success?;
    assert ValAt(rlp, 10, DecodeU256).Success?;
    assert ValAt(rlp, 11, DecodeU64).Success?;
    assert ValAt(rlp, 12, DecodeU256).Success?;
    assert ValAt(rlp, 13, DecodeU256).Success?;
    assert ValAt(rlp, 14, DecodeU256).Success?;
    assert ValAt(rlp, 15, DecodeString).Success?;
  }

  /** The canonical 16 children of an item encoding `r`, with `logs` at index 5. */
  function ReceiptFields(r: Receipt, logs: Item): (items: seq<Item>)
    ensures |items| == 16 && items[5] == logs
  {
    [EncodeUint(r.ty), Data(r.postState), EncodeUint(r.status), EncodeUint(r.cumulativeGasUsed),
     Data(r.bloom), logs, Data(r.txHash), Data(r.contractAddress),
     EncodeUint(r.gasUsed), Data(r.blockHash), EncodeUint(r.blockNumber), EncodeUint(r.transactionIndex),
     EncodeUint(r.l1GasPrice), EncodeUint(r.l1GasUsed), EncodeUint(r.l1Fee), Data(r.l1FeeScalar)]
  }

  /** The shape `Receipt::decode` accepts: a list whose first 16 children pass their reads. */
  predicate IsReceipt(rlp: Item) {
    rlp.List? && |rlp.items| >= 16 && FieldsDecode(rlp.items)
  }

  /** The record `Receipt::decode` builds from an item of that shape. */
  function ReceiptOf(rlp: Item): (r: Receipt)
    requires Encodable(rlp) && IsReceipt(rlp)
  {
    var cs := rlp.items;
    Receipt(
      DecodeU8(cs[0]).value, DecodeBytes(cs[1]).value, DecodeU64(cs[2]).value,
      DecodeU64(cs[3]).value, DecodeBytes(cs[4]).value, Encode(cs[5]),
      DecodeH256(cs[6]).value, DecodeString(cs[7]).value, DecodeU64(cs[8]).value,
      DecodeH256(cs[9]).value, DecodeU256(cs[10]).value, DecodeU64(cs[11]).value,
      DecodeU256(cs[12]).value, DecodeU256(cs[13]).value, DecodeU256(cs[14]).value,
      DecodeString(cs[15]).value)
  }

  /** On an item of the accepted shape, `Receipt::decode` builds exactly `ReceiptOf`. */
  lemma DecodeReceiptValue(rlp: Item)
    requires Encodable(rlp) && IsReceipt(rlp)
    ensures DecodeReceipt(rlp) == Success(ReceiptOf(rlp))
  {
    var cs := rlp.items;
  }

  /** `item` decodes, by `Receipt::decode`, as `r` (see `DecodesToIff`). */
  predicate DecodesTo(item: Item, r: Receipt) {
    Encodable(item) && IsReceipt(item) && ReceiptOf(item) == r
  }

  /** `DecodesTo` is exactly a successful `Receipt::decode` with result `r`. */
  lemma DecodesToIff(item: Item, r: Receipt)
    requires Encodable(item)
    ensures DecodesTo(item, r) <==> DecodeReceipt(item) == Success(r)
  {
    DecodeReceiptSucceeds(item);
    if IsReceipt(item) {
      DecodeReceiptValue(item);
    }
  }

  /**
   * Every field of a decoded receipt is the value of the child at the same
   * index (the reads accept canonical forms only, so the first 16 children
   * are determined by the receipt), and the logs are child 5's raw encoding.
   */
  lemma DecodeReceiptFields(rlp: Item)
    requires Encodable(rlp) && DecodeReceipt(rlp).Success?
    ensures rlp.List? && |rlp.items| >= 16
    ensures DecodeReceipt(rlp).value.logs == Encode(rlp.items[5])
    ensures rlp.items[..16] == ReceiptFields(DecodeReceipt(rlp).value, rlp.items[5])
  {
    DecodeReceiptSucceeds(rlp);
    DecodeReceiptValue(rlp);
    ReceiptOfFields(rlp);
  }

  /** An accepted item's first 16 children are the canonical layout of the record built from it. */
  lemma ReceiptOfFields(rlp: Item)
    requires Encodable(rlp) && IsReceipt(rlp)
    ensures rlp.items[..16] == ReceiptFields(ReceiptOf(rlp), rlp.items[5])
  {
    ReceiptOfIntChildren(rlp);
    ReceiptOfByteChildren(rlp);
    ChildrenAreFields(rlp.items, ReceiptOf(rlp));
  }

  /** The integer children of an accepted item are the canonical forms of their fields. */
  lemma ReceiptOfIntChildren(rlp: Item)
    requires Encodable(rlp) && IsReceipt(rlp)
    ensures var cs, r := rlp.items, ReceiptOf(rlp);
      cs[0] == EncodeUint(r.ty) && cs[2] == EncodeUint(r.status) &&
      cs[3] == EncodeUint(r.cumulativeGasUsed) && cs[8] == EncodeUint(r.gasUsed) &&
      cs[10] == EncodeUint(r.blockNumber) && cs[11] == EncodeUint(r.transactionIndex) &&
      cs[12] == EncodeUint(r.l1GasPrice) && cs[13] == EncodeUint(r.l1GasUsed) &&
      cs[14] == EncodeUint(r.l1Fee)
  {
    var cs := rlp.items;
    U8Canonical(cs[0]);
    U64Canonical(cs[2]);
    U64Canonical(cs[3]);
    U64Canonical(cs[8]);
    U256Canonical(cs[10]);
    U64Canonical(cs[11]);
    U256Canonical(cs[12]);
    U256Canonical(cs[13]);
    U256Canonical(cs[14]);
  }

  /** The byte-string children of an accepted item hold exactly their fields' bytes. */
  lemma ReceiptOfByteChildren(rlp: Item)
    requires Encodable(rlp) && IsReceipt(rlp)
    ensures var cs, r := rlp.items, ReceiptOf(rlp);
      cs[1] == Data(r.postState) && cs[4] == Data(r.bloom) &&
      cs[6] == Data(r.txHash) && cs[7] == Data(r.contractAddress) &&
      cs[9] == Data(r.blockHash) && cs[15] == Data(r.l1FeeScalar)
  {
  }

  /** Children equal to the canonical forms of the fields of `r` are the canonical layout of `r`. */
  lemma ChildrenAreFields(cs: seq<Item>, r: Receipt)
    requires |cs| >= 16
    requires cs[0] == EncodeUint(r.ty) && cs[2] == EncodeUint(r.status) &&
      cs[3] == EncodeUint(r.cumulativeGasUsed) && cs[8] == EncodeUint(r.gasUsed) &&
      cs[10] == EncodeUint(r.blockNumber) && cs[11] == EncodeUint(r.transactionIndex) &&
      cs[12] == EncodeUint(r.l1GasPrice) && cs[13] == EncodeUint(r.l1GasUsed) &&
      cs[14] == EncodeUint(r.l1Fee)
    requires cs[1] == Data(r.postState) && cs[4] == Data(r.bloom) &&
      cs[6] == Data(r.txHash) && cs[7] == Data(r.contractAddress) &&
      cs[9] == Data(r.blockHash) && cs[15] == Data(r.l1FeeScalar)
    ensures cs[..16] == ReceiptFields(r, cs[5])
  {
  }

  /** The canonical `u64` children read back as the fields they were written from. */
  lemma ReceiptU64FieldsRead(r: Receipt, logs: Item)
    ensures DecodeU64(ReceiptFields(r, logs)[2]) == Success(r.status)
    ensures DecodeU64(ReceiptFields(r, logs)[3]) == Success(r.cumulativeGasUsed)
    ensures DecodeU64(ReceiptFields(r, logs)[8]) == Success(r.gasUsed)
    ensures DecodeU64(ReceiptFields(r, logs)[11]) == Success(r.transactionIndex)
  {
    var fs := ReceiptFields(r, logs);
    assert fs[2] == EncodeUint(r.status) && fs[3] == EncodeUint(r.cumulativeGasUsed);
    assert fs[8] == EncodeUint(r.gasUsed) && fs[11] == EncodeUint(r.transactionIndex);
    U64RoundTrip(r.status);
    U64RoundTrip(r.cumulativeGasUsed);
    U64RoundTrip(r.gasUsed);
    U64RoundTrip(r.transactionIndex);
  }

  /** The canonical `U256` children read back as the fields they were written from. */
  lemma ReceiptU256FieldsRead(r: Receipt, logs: Item)
    ensures DecodeU256(ReceiptFields(r, logs)[10]) == Success(r.blockNumber)
    ensures DecodeU256(ReceiptFields(r, logs)[12]) == Success(r.l1GasPrice)
    ensures DecodeU256(ReceiptFields(r, logs)[13]) == Success(r.l1GasUsed)
    ensures DecodeU256(ReceiptFields(r, logs)[14]) == Success(r.l1Fee)
  {
    var fs := ReceiptFields(r, logs);
    assert fs[10] == EncodeUint(r.blockNumber) && fs[12] == EncodeUint(r.l1GasPrice);
    assert fs[13] == EncodeUint(r.l1GasUsed) && fs[14] == EncodeUint(r.l1Fee);
    U256RoundTrip(r.blockNumber);
    U256RoundTrip(r.l1GasPrice);
    U256RoundTrip(r.l1GasUsed);
    U256RoundTrip(r.l1Fee);
  }

  /** The canonical `u8` child reads back as the receipt type. */
  lemma ReceiptTypeFieldRead(r: Receipt, logs: Item)
    ensures DecodeU8(ReceiptFields(r, logs)[0]) == Success(r.ty)
  {
    U8RoundTrip(r.ty);
  }

  /** Each byte-string, hash and text child reads back as the field it was written from. */
  lemma ReceiptByteFieldsRead(r: Receipt, logs: Item)
    ensures DecodeBytes(ReceiptFields(r, logs)[1]) == Success(r.postState)
    ensures DecodeBytes(ReceiptFields(r, logs)[4]) == Success(r.bloom)
    ensures DecodeH256(ReceiptFields(r, logs)[6]) == Success(r.txHash)
    ensures DecodeString(ReceiptFields(r, logs)[7]) == Success(r.contractAddress)
    ensures DecodeH256(ReceiptFields(r, logs)[9]) == Success(r.blockHash)
    ensures DecodeString(ReceiptFields(r, logs)[15]) == Success(r.l1FeeScalar)
  {
  }

  /** The item a receipt is exported as: its 16 fields, possibly followed by more children. */
  function ReceiptItem(r: Receipt, logs: Item, extra: seq<Item>): (item: Item) {
    List(ReceiptFields(r, logs) + extra)
  }

  /** The canonical item of a receipt has the accepted shape and builds back that receipt. */
  lemma ReceiptOfRoundTrip(r: Receipt, logs: Item, extra: seq<Item>)
    requires Encodable(ReceiptItem(r, logs, extra))
    requires Encodable(logs) && Encode(logs) == r.logs
    ensures DecodesTo(ReceiptItem(r, logs, extra), r)
  {
    var fs := ReceiptFields(r, logs);
    var cs := fs + extra;
    ReceiptTypeFieldRead(r, logs);
    ReceiptU64FieldsRead(r, logs);
    ReceiptU256FieldsRead(r, logs);
    ReceiptByteFieldsRead(r, logs);
    forall k | 0 <= k < 16 ensures cs[k] == fs[k] {
    }
  }

  /**
   * Field fidelity: the canonical children of a receipt decode back to it,
   * whatever children follow index 15.
   */
  lemma DecodeReceiptFieldsRoundTrip(r: Receipt, logs: Item, extra: seq<Item>)
    requires Encodable(ReceiptItem(r, logs, extra))
    requires Encodable(logs) && Encode(logs) == r.logs
    ensures DecodeReceipt(ReceiptItem(r, logs, extra)) == Success(r)
  {
    ReceiptOfRoundTrip(r, logs, extra);
    DecodeReceiptValue(ReceiptItem(r, logs, extra));
  }

  /** Children from index 16 on never influence `Receipt::decode`. */
  lemma DecodeReceiptIgnoresTail(cs: seq<Item>, extra: seq<Item>)
    requires |cs| >= 16
    requires Encodable(List(cs)) && Encodable(List(cs + extra))
    ensures DecodeReceipt(List(cs + extra)) == DecodeReceipt(List(cs))
  {
    var long, short := List(cs + extra), List(cs);
    forall k | 0 <= k < 16 ensures long.items[k] == short.items[k] {
    }
    SamePrefixFirstReads(long, short);
    SamePrefixLastReads(long, short);
  }

  /** Two lists agreeing on children 0..15 agree on the reads of children 0..7. */
  lemma SamePrefixFirstReads(long: Item, short: Item)
    requires long.List? && short.List? && |long.items| >= 16 && |short.items| >= 16
    requires forall k | 0 <= k < 16 :: long.items[k] == short.items[k]
    ensures ValAt(long, 0, DecodeU8) == ValAt(short, 0, DecodeU8)
    ensures ValAt(long, 1, DecodeBytes) == ValAt(short, 1, DecodeBytes)
    ensures ValAt(long, 2, DecodeU64) == ValAt(short, 2, DecodeU64)
    ensures ValAt(long, 3, DecodeU64) == ValAt(short, 3, DecodeU64)
    ensures ValAt(long, 4, DecodeBytes) == ValAt(short, 4, DecodeBytes)
    ensures At(long, 5) == At(short, 5)
    ensures ValAt(long, 6, DecodeH256) == ValAt(short, 6, DecodeH256)
    ensures ValAt(long, 7, DecodeString) == ValAt(short, 7, DecodeString)
  {
    assert long.items[0] == short.items[0] && long.items[1] == short.items[1];
    assert long.items[2] == short.items[2] && long.items[3] == short.items[3];
    assert long.items[4] == short.items[4] && long.items[5] == short.items[5];
    assert long.items[6] == short.items[6] && long.items[7] == short.items[7];
  }

  /** Two lists agreeing on children 0..15 agree on the reads of children 8..15. */
  lemma SamePrefixLastReads(long: Item, short: Item)
    requires long.List? && short.List? && |long.items| >= 16 && |short.items| >= 16
    requires forall k | 0 <= k < 16 :: long.items[k] == short.items[k]
    ensures ValAt(long, 8, DecodeU64) == ValAt(short, 8, DecodeU64)
    ensures ValAt(long, 9, DecodeH256) == ValAt(short, 9, DecodeH256)
    ensures ValAt(long, 10, DecodeU256) == ValAt(short, 10, DecodeU256)
    ensures ValAt(long, 11, DecodeU64) == ValAt(short, 11, DecodeU64)
    ensures ValAt(long, 12, DecodeU256) == ValAt(short, 12, DecodeU256)
    ensures ValAt(long, 13, DecodeU256) == ValAt(short, 13, DecodeU256)
    ensures ValAt(long, 14, DecodeU256) == ValAt(short, 14, DecodeU256)
    ensures ValAt(long, 15, DecodeString) == ValAt(short, 15, DecodeString)
  {
    assert long.items[8] == short.items[8] && long.items[9] == short.items[9];
    assert long.items[10] == short.items[10] && long.items[11] == short.items[11];
    assert long.items[12] == short.items[12] && long.items[13] == short.items[13];
    assert long.items[14] == short.items[14] && long.items[15] == short.items[15];
  }

  /**
   * What one child contributes to the output of `decode_receipt_vec`:
   * nothing for a placeholder, the receipt itself when `Receipt::decode`
   * accepts it (`DecodeReceiptSucceeds`, `DecodeReceiptValue`), otherwise
   * whatever walking it as a container yields.
   */
  function Contribution(item: Item): (rs: seq<Receipt>)
    requires Encodable(item)
    decreases item, 1
  {
    if IsEmpty(item) then []
    else if IsReceipt(item) then [ReceiptOf(item)]
    else Flatten(item)
  }

  /** The receipts `decode_receipt_vec` collects from the children of `rlp`, depth first. */
  function Flatten(rlp: Item): (rs: seq<Receipt>)
    requires Encodable(rlp)
    decreases rlp, 0
  {
    match rlp
    case Data(_) => []
    case List(items) => FlattenSeq(items)
  }

  /** The contributions of `items`, concatenated in order. */
  function FlattenSeq(items: seq<Item>): (rs: seq<Receipt>)
    requires AllEncodable(items)
    decreases items
  {
    if items == [] then [] else Contribution(items[0]) + FlattenSeq(items[1..])
  }

  /** Walking siblings one after another concatenates what each part yields. */
  lemma {:induction false} FlattenSeqAppend(a: seq<Item>, b: seq<Item>)
    requires AllEncodable(a) && AllEncodable(b)
    ensures AllEncodable(a + b)
    ensures FlattenSeq(a + b) == FlattenSeq(a) + FlattenSeq(b)
  {
    if a == [] {
      assert a + b == b;
    } else {
      FlattenSeqAppend(a[1..], b);
      assert (a + b)[1..] == a[1..] + b;
    }
  }

  /** Walking one more sibling appends what that sibling contributes. */
  lemma FlattenSeqSnoc(items: seq<Item>, i: nat)
    requires AllEncodable(items) && i < |items|
    ensures AllEncodable(items[..i]) && AllEncodable(items[..i + 1]) && Encodable(items[i])
    ensures FlattenSeq(items[..i + 1]) == FlattenSeq(items[..i]) + Contribution(items[i])
  {
    assert items[..i + 1] == items[..i] + [items[i]];
    FlattenSeqAppend(items[..i], [items[i]]);
    assert FlattenSeq([items[i]]) == Contribution(items[i]) + FlattenSeq([]);
  }

  /**
   * `Receipt::decode_receipt_vec`: walks the children of `rlp` in order,
   * skips placeholders, appends a child that decodes as a receipt, and
   * otherwise appends what the walk of that child yields. Under the tree
   * model it never fails.
   */
  method DecodeReceiptVec(rlp: Item) returns (res: Result<seq<Receipt>, DecoderError>)
    requires Encodable(rlp)
    ensures res == Success(Flatten(rlp))
    decreases rlp
  {
    var receipts: seq<Receipt> := [];
    var items := Iter(rlp);
    for i := 0 to |items|
      invariant receipts == FlattenSeq(items[..i])
    {
      var item := items[i];
      FlattenSeqSnoc(items, i);
      if IsEmpty(item) {
        continue;
      }
      var direct := DecodeReceipt(item);
      if direct.Failure? {
        FallbackWalksChild(item);
        // The `?` on the nested walk never fires: the walk itself cannot fail.
        var inner := DecodeReceiptVec(item);
        receipts := receipts + inner.value;
        continue;
      }
      DirectDecodeAppendsOnce(item, direct.value);
      receipts := receipts + [direct.value];
    }
    assert items[..|items|] == items;
    return Success(receipts);
  }

  /** Placeholders (`0x80`, `0xc0`) contribute nothing wherever they sit among siblings. */
  lemma PlaceholderSkipped(before: seq<Item>, e: Item, after: seq<Item>)
    requires AllEncodable(before) && AllEncodable(after)
    requires e == Data([]) || e == List([])
    ensures AllEncodable(before + [e] + after) && AllEncodable(before + after)
    ensures FlattenSeq(before + [e] + after) == FlattenSeq(before + after)
  {
    assert FlattenSeq([e]) == [];
    FlattenSeqAppend(before, [e]);
    FlattenSeqAppend(before + [e], after);
    FlattenSeqAppend(before, after);
  }

  /** A child that decodes as a receipt contributes exactly that receipt, once. */
  lemma DirectDecodeAppendsOnce(item: Item, r: Receipt)
    requires Encodable(item)
    requires DecodeReceipt(item) == Success(r)
    ensures Contribution(item) == [r]
  {
    DecodesToIff(item, r);
  }

  /** A child that fails to decode and is no placeholder contributes what walking it yields. */
  lemma FallbackWalksChild(item: Item)
    requires Encodable(item) && !IsEmpty(item)
    requires DecodeReceipt(item).Failure?
    ensures Contribution(item) == Flatten(item)
  {
    DecodeReceiptSucceeds(item);
  }

  /** A child that is a byte string fails to decode as a receipt, has no children and contributes nothing. */
  lemma ScalarContributesNothing(b: seq<byte>)
    requires |b| < LengthBound
    ensures DecodeReceipt(Data(b)) == Failure(RlpExpectedToBeList)
    ensures Contribution(Data(b)) == []
  {
    DecodeReceiptSucceeds(Data(b));
  }

  /** An exported receipt item contributes the receipt it was exported from. */
  lemma ExportedReceiptContributes(r: Receipt, logs: Item, extra: seq<Item>)
    requires Encodable(ReceiptItem(r, logs, extra)) && Encodable(logs)
    requires Encode(logs) == r.logs
    ensures Contribution(ReceiptItem(r, logs, extra)) == [r]
  {
    ReceiptOfRoundTrip(r, logs, extra);
  }

  /** `items` are, one by one, items that decode directly as the receipts `rs`. */
  predicate DecodesAs(items: seq<Item>, rs: seq<Receipt>) {
    |items| == |rs| &&
    forall i :: 0 <= i < |items| ==> DecodesTo(items[i], rs[i])
  }

  /** A batch of receipt items yields its receipts in the order they appear. */
  lemma {:induction false} FlatBatch(items: seq<Item>, rs: seq<Receipt>)
    requires DecodesAs(items, rs)
    ensures AllEncodable(items)
    ensures FlattenSeq(items) == rs
    decreases |items|
  {
    if items != [] {
      DecodesAsTail(items, rs);
      FlatBatch(items[1..], rs[1..]);
      FlatBatchStep(items, rs);
    }
  }

  /** Dropping the first item of a batch keeps the rest of the pairing. */
  lemma DecodesAsTail(items: seq<Item>, rs: seq<Receipt>)
    requires DecodesAs(items, rs) && items != []
    ensures DecodesAs(items[1..], rs[1..]) && DecodesTo(items[0], rs[0])
  {
    forall i | 0 <= i < |items[1..]|
      ensures DecodesTo(items[1..][i], rs[1..][i])
    {
      assert items[1..][i] == items[i + 1];
    }
  }

  /** A receipt item in front of a batch that yields `rs[1..]` makes the batch yield `rs`. */
  lemma FlatBatchStep(items: seq<Item>, rs: seq<Receipt>)
    requires items != [] && |items| == |rs| && DecodesTo(items[0], rs[0])
    requires AllEncodable(items[1..]) && FlattenSeq(items[1..]) == rs[1..]
    ensures AllEncodable(items) && FlattenSeq(items) == rs
  {
    assert items == [items[0]] + items[1..];
    FlattenSeqCons(items[0], items[1..]);
    ContributionOfReceipt(items[0], rs[0]);
    assert rs == [rs[0]] + rs[1..];
  }

  /** An item that decodes as `r` contributes `r`. */
  lemma ContributionOfReceipt(item: Item, r: Receipt)
    requires DecodesTo(item, r)
    ensures Contribution(item) == [r]
  {
  }

  /**
   * A list whose first child is itself a list is never a receipt: field 0,
   * the type byte, must be a string. So a list of receipt items is walked,
   * never decoded.
   */
  lemma ListHeadedNotReceipt(cs: seq<Item>)
    requires Encodable(List(cs))
    requires cs != [] && cs[0].List?
    ensures DecodeReceipt(List(cs)).Failure?
  {
    DecodeReceiptSucceeds(List(cs));
  }

  /**
   * A batch nested as the first child is flattened in place: the receipts of
   * the inner batch come first, then those of the following siblings.
   */
  lemma NestedBatch(inner: seq<Item>, rs: seq<Receipt>, after: seq<Item>, rs': seq<Receipt>)
    requires DecodesAs(inner, rs) && DecodesAs(after, rs')
    requires inner != []
    requires Encodable(List([List(inner)] + after))
    ensures Flatten(List([List(inner)] + after)) == rs + rs'
  {
    FlattenSeqCons(List(inner), after);
    BatchContribution(inner, rs);
    FlatBatch(after, rs');
  }

  /** The walk of a list whose first child is `x` is what `x` contributes, then the rest. */
  lemma FlattenSeqCons(x: Item, after: seq<Item>)
    ensures AllEncodable([x] + after) <==> Encodable(x) && AllEncodable(after)
    ensures AllEncodable([x] + after) ==> FlattenSeq([x] + after) == Contribution(x) + FlattenSeq(after)
  {
    var items := [x] + after;
    assert items[0] == x && items[1..] == after;
    assert forall i | 0 <= i < |after| :: after[i] == items[i + 1];
  }

  /**
   * A batch of receipt items, as a child, contributes its receipts: its first
   * child is a receipt item, hence a list, so the batch itself never decodes.
   */
  lemma BatchContribution(inner: seq<Item>, rs: seq<Receipt>)
    requires DecodesAs(inner, rs) && inner != []
    requires Encodable(List(inner))
    ensures Contribution(List(inner)) == rs
  {
    assert DecodesTo(inner[0], rs[0]);
    assert DecodeU8(inner[0]).Failure?;
    assert !IsReceipt(List(inner));
    FlatBatch(inner, rs);
  }

  /** The walk applied to `List[List[e1, e2], e3]` for receipt items e1, e2, e3 yields [r1, r2, r3]. */
  lemma NestedExample(e1: Item, e2: Item, e3: Item, r1: Receipt, r2: Receipt, r3: Receipt)
    requires DecodesTo(e1, r1) && DecodesTo(e2, r2) && DecodesTo(e3, r3)
    requires Encodable(List([List([e1, e2]), e3]))
    ensures Flatten(List([List([e1, e2]), e3])) == [r1, r2, r3]
  {
    DecodesAsPair(e1, e2, r1, r2);
    DecodesAsOne(e3, r3);
    NestedLayout(List([e1, e2]), e3);
    NestedBatch([e1, e2], [r1, r2], [e3], [r3]);
  }

  /** Two receipt items form a batch of their two receipts. */
  lemma DecodesAsPair(e1: Item, e2: Item, r1: Receipt, r2: Receipt)
    requires DecodesTo(e1, r1) && DecodesTo(e2, r2)
    ensures DecodesAs([e1, e2], [r1, r2])
  {
  }

  /** One receipt item forms a batch of its receipt. */
  lemma DecodesAsOne(e: Item, r: Receipt)
    requires DecodesTo(e, r)
    ensures DecodesAs([e], [r])
  {
  }

  /** The children of `List[x, e]`, as a head and a tail. */
  lemma NestedLayout(x: Item, e: Item)
    ensures [x] + [e] == [x, e]
  {
  }

  /** `x` wrapped in `k` single-child lists. */
  function Wrap(k: nat, x: Item): (w: Item) {
    if k == 0 then x else List([Wrap(k - 1, x)])
  }

  /** However deep a receipt item is wrapped, the walk reaches it and yields the receipt once. */
  lemma {:induction false} DepthTolerance(k: nat, x: Item, r: Receipt)
    requires Encodable(Wrap(k, x)) && DecodesTo(x, r)
    ensures Contribution(Wrap(k, x)) == [r]
  {
    if k == 0 {
      ContributionOfReceipt(x, r);
    } else {
      DepthTolerance(k - 1, x, r);
      SingletonContribution(Wrap(k - 1, x));
    }
  }

  /** A list holding a single child contributes what that child contributes. */
  lemma SingletonContribution(w: Item)
    requires Encodable(List([w]))
    ensures Encodable(w) && Contribution(List([w])) == Contribution(w)
  {
    assert [w][0] == w;
    assert FlattenSeq([w]) == Contribution(w) + FlattenSeq([]);
  }

  /** Byte strings at any position contribute nothing. */
  lemma {:induction false} ScalarsContributeNothing(items: seq<Item>)
    requires AllEncodable(items)
    requires forall i | 0 <= i < |items| :: items[i].Data?
    ensures FlattenSeq(items) == []
  {
    if items != [] {
      assert Contribution(items[0]) == [];
      forall i | 0 <= i < |items[1..]|
        ensures items[1..][i].Data? && Encodable(items[1..][i])
      {
        assert items[1..][i] == items[i + 1];
      }
      ScalarsContributeNothing(items[1..]);
    }
  }

  /** With byte-string logs, every canonical child of a receipt is a byte string. */
  lemma ReceiptFieldsScalar(r: Receipt, logs: Item)
    requires logs.Data?
    ensures forall i | 0 <= i < 16 :: ReceiptFields(r, logs)[i].Data?
  {
  }

  /**
   * The root is only walked, never decoded: a single exported receipt whose
   * logs are a byte string decodes as that receipt, yet as a root it
   * yields no receipts.
   */
  lemma RootNeverDecoded(r: Receipt, logs: Item)
    requires Encodable(ReceiptItem(r, logs, [])) && Encodable(logs)
    requires Encode(logs) == r.logs && logs.Data?
    ensures DecodeReceipt(ReceiptItem(r, logs, [])) == Success(r)
    ensures Flatten(ReceiptItem(r, logs, [])) == []
  {
    DecodeReceiptFieldsRoundTrip(r, logs, []);
    RootOfScalarsEmpty(r, logs);
  }

  /** A root whose children are the byte-string fields of one receipt yields nothing. */
  lemma RootOfScalarsEmpty(r: Receipt, logs: Item)
    requires Encodable(ReceiptItem(r, logs, [])) && logs.Data?
    ensures Flatten(ReceiptItem(r, logs, [])) == []
  {
    var items := ReceiptFields(r, logs) + [];
    assert items == ReceiptFields(r, logs);
    ReceiptFieldsScalar(r, logs);
    ScalarsContributeNothing(items);
  }

  /**
   * The receipts an export file holds, given its bytes `data`: the first
   * byte is skipped, and the item that follows is walked. A root that is
   * not a list has nothing to walk.
   */
  function ReceiptsOfExport(data: seq<byte>): (r: Result<seq<Receipt>, DecoderError>)
    requires |data| >= 1
  {
    var body := data[1..];
    if body == [] || body[0] < 0xc0 then Success([])
    else match Read(body)
      case Failure(e) => Failure(e)
      case Success(root) =>
        EncodeRead(body);
        Success(Flatten(root.0))
  }

  /**
   * `Receipt::from_file`, on the bytes already read from the file: wraps
   * everything after the first byte as the root item and walks it with
   * `decode_receipt_vec`.
   */
  method FromFile(data: seq<byte>) returns (res: Result<seq<Receipt>, DecoderError>)
    requires |data| >= 1
    ensures res == ReceiptsOfExport(data)
  {
    var rlpData := data[1..];
    if rlpData == [] || rlpData[0] < 0xc0 {
      // Not a list: iterating its children yields nothing.
      return Success([]);
    }
    var root :- Read(rlpData);
    EncodeRead(rlpData);
    res := DecodeReceiptVec(root.0);
  }

  /** The byte before the root item is never looked at. */
  lemma FirstByteIgnored(a: byte, b: byte, rest: seq<byte>)
    ensures ReceiptsOfExport([a] + rest) == ReceiptsOfExport([b] + rest)
  {
    assert ([a] + rest)[1..] == rest == ([b] + rest)[1..];
  }

  /**
   * An export file made of any first byte, the encoding of a root item and
   * any trailing bytes yields exactly the walk of that root; a root that
   * is a byte string yields no receipts.
   */
  lemma ExportRoundTrip(tag: byte, root: Item, trailing: seq<byte>)
    requires Encodable(root)
    ensures ReceiptsOfExport([tag] + Encode(root) + trailing) == Success(Flatten(root))
    ensures root.Data? ==> ReceiptsOfExport([tag] + Encode(root) + trailing) == Success([])
  {
    EncodeFirstByte(root);
    ReadEncode(root, trailing);
    TaggedBody(tag, Encode(root), trailing);
    ExportOfRoot([tag] + Encode(root) + trailing, root, |Encode(root)|);
  }

  /** The body of a file made of a first byte, `enc` and `trailing`. */
  lemma TaggedBody(tag: byte, enc: seq<byte>, trailing: seq<byte>)
    requires enc != []
    ensures |[tag] + enc + trailing| >= 2
    ensures ([tag] + enc + trailing)[1..] == enc + trailing
    ensures ([tag] + enc + trailing)[1] == enc[0]
  {
    assert ([tag] + enc + trailing)[1..] == enc + trailing;
  }

  /** A file whose body reads as `root` yields the walk of `root`. */
  lemma ExportOfRoot(data: seq<byte>, root: Item, n: nat)
    requires |data| >= 2 && Encodable(root)
    requires Read(data[1..]) == Success((root, n))
    requires data[1] >= 0xc0 <==> root.List?
    ensures ReceiptsOfExport(data) == Success(Flatten(root))
  {
  }

  /**
   * A list root cut short (its header announces 5 payload bytes, 2 follow)
   * is rejected with the reader's error; `decode_receipt_vec` itself never
   * returns a decoder error.
   */
  lemma TruncatedRootRejected()
    ensures ReceiptsOfExport([0, 0xc5, 1, 2]) == Failure(RlpIsTooShort)
  {
    var body := [0, 0xc5, 1, 2][1..];
    assert body == [0xc5, 1, 2];
    assert ReadHeader(body, 0xc0) == Failure(RlpIsTooShort);
  }

  /** A file holding one list of receipt items yields those receipts, in file order. */
  lemma ExportBatch(tag: byte, items: seq<Item>, rs: seq<Receipt>, trailing: seq<byte>)
    requires DecodesAs(items, rs) && Encodable(List(items))
    ensures ReceiptsOfExport([tag] + Encode(List(items)) + trailing) == Success(rs)
  {
    ExportRoundTrip(tag, List(items), trailing);
    FlatBatch(items, rs);
  }
}
