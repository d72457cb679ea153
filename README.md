# Receipt-export decoder of op-reth, in Dafny

op-reth imports transaction receipts from a batch export file. The file is
one marker byte followed by one RLP item (the Recursive Length Prefix
format of appendix B of the Ethereum Yellow Paper). The root item is a list
whose children are receipts, empty placeholders, or further lists of
receipts nested to any depth. `Receipt::from_file` in `src/cli/receipts.rs`
reads such a file. `Receipt::decode_receipt_vec` walks the tree depth
first. `Receipt::decode` turns one list item into the 16-field `Receipt`
record.

The project models that decoder:

- `wrappers.dfy`: the `Result` type used for `Result<_, DecoderError>`.
- `bytes.dfy`: the byte type and big-endian numbers. These are the payloads
  of RLP integers and of long-form lengths.
- `utf8.dfy`: well-formed UTF-8, following table 3-7 of the Unicode
  standard. The `String` fields are read with `String::from_utf8`.
- `rlp.dfy`: the item tree `Item = Data(bytes) | List(items)`, the encoder
  of appendix B, and a byte-level reader. Both round trips are proved:
  `Read(Encode(it) + rest)` gives back `it`, and every successful read
  consumed exactly an encoding.
- `rlp_view.dfy`: the part of the `rlp` crate the decoder calls:
  - `is_empty`, `iter`, `at`, `as_raw` and `val_at`;
  - the typed reads for `u8`, `u64`, `U256`, `Vec<u8>`, `H256` and
    `String`.
- `receipts.dfy`: the `Receipt` record, `Receipt::decode`, the imperative
  `decode_receipt_vec` walk, and the pure part of `from_file`. It also
  holds the properties of those three.

The walk is proved against the specification function `Flatten`:

- It never fails.
- Placeholders (`0x80`, `0xc0`) are skipped wherever they sit.
- A child that decodes is appended exactly once.
- Batches keep file order, and nesting is flattened, so `List[List[r1,r2],r3]`
  gives `[r1,r2,r3]`.
- A receipt wrapped in any number of single-child lists is still found.
- The root itself is never decoded.

`Receipt::decode` is proved to succeed exactly when the item is a list whose
first 16 children pass their typed reads. It ignores every child after
index 15 and copies child 5 raw as the logs. It inverts the canonical
layout of a receipt (`ReceiptFields`).

On a well-formed item tree the model follows the code:

- A receipt is a list with at least 16 children, not exactly 16.
- A non-empty byte string among siblings is dropped silently. It is not a
  fatal error.
- The recursion has no depth bound.
- An empty list is a placeholder, just as an empty string is.

On malformed bytes the model departs from the code. In the code,
`decode_receipt_vec` never returns a decoder error: it ends in `Ok`
(`src/cli/receipts.rs:138`). In the model, `ReceiptsOfExport` and
`FromFile` return the reader's error. For example, a marker byte followed by
`0xc5 0x01 0x02` gives `Failure(RlpIsTooShort)` in the model
(`TruncatedRootRejected`), where the code returns `Ok`. See `ReceiptsOfExport` under "## Left out".

## Model

| member | source | states |
|---|---|---|
| Receipts.DecodeReceiptSucceeds | src/cli/receipts.rs:81-120 | decode succeeds iff the item is a list with at least 16 children whose first 16 pass their typed reads (`IsReceipt`); a byte string fails with RlpExpectedToBeList |
| Receipts.DecodeReceiptNeedsShape | src/cli/receipts.rs:83-98 | decode succeeds only if every one of the 16 reads succeeds: child i exists and passes the read of field i |
| Receipts.DecodeReceiptValue | src/cli/receipts.rs:82-119 | on an accepted item the record is built field by field from children 0..15 in order (`ReceiptOf`), logs being the raw bytes of child 5 |
| Receipts.DecodesToIff | src/cli/receipts.rs:81-120 | an item has the accepted shape and builds record r exactly when decode returns Ok(r) |
| Receipts.DecodeReceiptFields | src/cli/receipts.rs:83-98 | a decoded receipt determines its first 16 children (the canonical layout of its fields) and its logs are the raw encoding of child 5 |
| Receipts.ReceiptOfFields | src/cli/receipts.rs:83-117 | the first 16 children of an accepted item are exactly the canonical layout of the record built from it |
| Receipts.ReceiptOfIntChildren | src/cli/receipts.rs:83-97 | every integer child of an accepted item is the minimal encoding of the field it was read into |
| Receipts.ReceiptOfByteChildren | src/cli/receipts.rs:84-98 | every byte-string, hash and text child of an accepted item holds exactly the bytes of its field |
| Receipts.ReceiptTypeFieldRead | src/cli/receipts.rs:83 | the canonical type child reads back as the receipt type |
| Receipts.ReceiptU64FieldsRead | src/cli/receipts.rs:85-94 | the canonical status, cumulative gas, gas used and transaction index children read back as those fields |
| Receipts.ReceiptU256FieldsRead | src/cli/receipts.rs:93-97 | the canonical block number and L1 gas price, gas used and fee children read back as those fields |
| Receipts.ReceiptByteFieldsRead | src/cli/receipts.rs:84-98 | post state, bloom, hashes, contract address and fee scalar children read back as those fields |
| Receipts.ReceiptOfRoundTrip | src/cli/receipts.rs:81-120 | the canonical layout of a receipt, with any further children, has the accepted shape and builds back that receipt |
| Receipts.DecodeReceiptFieldsRoundTrip | src/cli/receipts.rs:81-120 | decoding the canonical layout of a receipt, followed by any children, gives back that receipt |
| Receipts.DecodeReceiptIgnoresTail | src/cli/receipts.rs:83-98 | children from index 16 on never change the outcome of decode |
| Receipts.SamePrefixFirstReads | src/cli/receipts.rs:83-89 | lists agreeing on children 0..15 give the same outcome for the reads of children 0..7 |
| Receipts.SamePrefixLastReads | src/cli/receipts.rs:90-98 | lists agreeing on children 0..15 give the same outcome for the reads of children 8..15 |
| Receipts.FlattenSeqAppend | src/cli/receipts.rs:125-137 | walking consecutive siblings concatenates what each part yields |
| Receipts.FlattenSeqSnoc | src/cli/receipts.rs:125-137 | one more loop iteration appends exactly what the next child contributes |
| Receipts.FlattenSeqCons | src/cli/receipts.rs:125-137 | the walk of children headed by x is what x contributes followed by the walk of the rest, and all are encodable iff each part is |
| Receipts.DecodeReceiptVec | src/cli/receipts.rs:123-139 | the loop collects exactly the depth-first, in-order flattening of the children and always returns Ok |
| Receipts.PlaceholderSkipped | src/cli/receipts.rs:126-128 | inserting an empty string or empty list anywhere among siblings leaves the result unchanged |
| Receipts.DirectDecodeAppendsOnce | src/cli/receipts.rs:129-136 | a child that decodes as a receipt contributes exactly that one receipt |
| Receipts.FallbackWalksChild | src/cli/receipts.rs:129-134 | a child that is no placeholder and fails to decode contributes what walking its own children yields |
| Receipts.ContributionOfReceipt | src/cli/receipts.rs:129-136 | an item of the accepted shape contributes exactly the record built from it |
| Receipts.ScalarContributesNothing | src/cli/receipts.rs:129-134 | a byte-string child fails to decode with RlpExpectedToBeList and contributes nothing |
| Receipts.ScalarsContributeNothing | src/cli/receipts.rs:125-138 | siblings that are all byte strings yield no receipts |
| Receipts.ExportedReceiptContributes | src/cli/receipts.rs:129-136 | the canonical item of a receipt, as a child, contributes that receipt |
| Receipts.FlatBatch | src/cli/receipts.rs:123-139 | siblings that each decode as a receipt yield those receipts in sibling order |
| Receipts.ListHeadedNotReceipt | src/cli/receipts.rs:83 | a list whose first child is a list never decodes as a receipt, so a batch of receipts is always walked |
| Receipts.BatchContribution | src/cli/receipts.rs:129-134 | a non-empty batch of receipt items, as a child, never decodes itself and contributes its receipts in order |
| Receipts.NestedBatch | src/cli/receipts.rs:131-134 | a nested batch is flattened in place: its receipts, then those of the following siblings |
| Receipts.NestedExample | src/cli/receipts.rs:123-139 | the root List[List[r1, r2], r3] yields [r1, r2, r3] |
| Receipts.SingletonContribution | src/cli/receipts.rs:125-137 | a list with a single child contributes what that child contributes |
| Receipts.DepthTolerance | src/cli/receipts.rs:129-136 | a receipt wrapped in any number of single-child lists still contributes exactly that receipt |
| Receipts.ReceiptFieldsScalar | src/cli/receipts.rs:83-98 | with byte-string logs every canonical child of a receipt is a byte string |
| Receipts.RootOfScalarsEmpty | src/cli/receipts.rs:125-138 | a root made of the canonical children of one receipt, with byte-string logs, yields nothing |
| Receipts.RootNeverDecoded | src/cli/receipts.rs:125 | a root that itself decodes as a receipt is only walked: with byte-string logs it yields no receipts |
| Receipts.FromFile | src/cli/receipts.rs:142-156 | skips the first byte, takes the following item as root and returns what decode_receipt_vec yields from it |
| Receipts.FirstByteIgnored | src/cli/receipts.rs:144 | the first byte of the file never changes the result |
| Receipts.ExportRoundTrip | src/cli/receipts.rs:143-155 | a marker byte, the encoding of a root and any trailing bytes yield exactly the flattening of the root; a byte-string root yields no receipts |
| Receipts.ExportOfRoot | src/cli/receipts.rs:143-155 | a file whose body reads as a root, list or not, yields the walk of that root |
| Receipts.TruncatedRootRejected | src/cli/receipts.rs:144-155 | a truncated list root is rejected by the model's reader with RlpIsTooShort, where the source returns Ok (see "## Left out") |
| Receipts.ExportBatch | src/cli/receipts.rs:142-156 | a file holding one list of receipt items yields those receipts in file order |
| RlpView.AtAgreesWithIter | src/cli/receipts.rs:88-125 | `at(i)` succeeds exactly for the indices `iter` visits, and returns the child `iter` visits there |
| RlpView.AsRaw | src/cli/receipts.rs:88 | the raw bytes of an item are an encoding that reads back as that item |
| RlpView.ValAtPositional | src/cli/receipts.rs:83-98 | a typed read of child i depends on child i alone: two lists that agree at index i give the same result or error |
| RlpView.ValAtMissingChild | src/cli/receipts.rs:83-98 | a typed read of a missing child fails without decoding: RlpExpectedToBeList on a string, RlpIsTooShort on a list that is too short |
| RlpView.DecodeUint | src/cli/receipts.rs:83-97 | an integer read succeeds iff the item is a string of at most width bytes without a leading zero, and the value fits the width |
| RlpView.UintRoundTrip | src/cli/receipts.rs:83-97 | the minimal big-endian encoding of a number below the width bound reads back as that number |
| RlpView.UintCanonical | src/cli/receipts.rs:83-97 | an item that reads as a number is the minimal encoding of that number |
| RlpView.U8RoundTrip | src/cli/receipts.rs:83 | the canonical encoding of a u8 reads back as it |
| RlpView.U64RoundTrip | src/cli/receipts.rs:85-94 | the canonical encoding of a u64 reads back as it |
| RlpView.U256RoundTrip | src/cli/receipts.rs:93-97 | the canonical encoding of a U256 reads back as it |
| RlpView.U8Canonical | src/cli/receipts.rs:83 | an item that reads as a u8 is its canonical encoding |
| RlpView.U64Canonical | src/cli/receipts.rs:85-94 | an item that reads as a u64 is its canonical encoding |
| RlpView.U256Canonical | src/cli/receipts.rs:93-97 | an item that reads as a U256 is its canonical encoding |
| RlpView.BytesReadInverse | src/cli/receipts.rs:84 | the byte-vector read returns b exactly on the string item holding b: it inverts `Data` |
| RlpView.H256ReadInverse | src/cli/receipts.rs:89 | the hash read returns h exactly on the string item holding the 32 bytes of h |
| RlpView.StringReadInverse | src/cli/receipts.rs:90 | the `String` read returns s exactly on the string item holding the well-formed UTF-8 bytes of s |
| Rlp.ReadEncode | src/cli/receipts.rs:144 | reading the encoding of an item, followed by any bytes, gives back the item and the encoding's length |
| Rlp.EncodeRead | src/cli/receipts.rs:144 | every successful read yields an encodable item whose encoding is exactly the bytes consumed |
| Rlp.EncodeFirstByte | src/cli/receipts.rs:144-152 | an encoding starts with a byte of 0xc0 or more iff it encodes a list |
| Utf8.EncodeIsValid | src/cli/receipts.rs:90 | encoding any sequence of Unicode scalar values gives well-formed UTF-8 |

## Left out

- Reading the file (`std::fs::read`) is left out. `FromFile` takes the file's bytes as a parameter, and the I/O error is not modelled.
- The `tracing` messages about an empty, null or list root are left out. They are logging only.
- The `eyre` wrapping of the decoder error is left out. The model returns the `DecoderError` itself.
- The serde derives and the renamed JSON keys of `Receipt` are left out. They play no part in decoding.
- `FromFile`: an empty file makes the source panic on `data[1..]`. The model turns this into the precondition `|data| >= 1`.
- `ReceiptsOfExport`: for a list root whose bytes are malformed, the model returns the reader's error. The code never returns a decoder error there (`src/cli/receipts.rs:138`). The crate parses lazily while it iterates, and which receipts it yields from malformed bytes is not part of this model. The walk is modelled on the parsed item tree.
- `Read`: the reader checks encodings while it parses the tree, for example the single-byte-string rule and the minimal long-form length. The crate checks some of these only when a value is read from the item. So the model rejects, as a whole, some malformed files that the crate partly decodes.
- `DecodeU256`: `U256` is read with the same rule as `u64`, namely at most 32 bytes and no leading zero. The exact rule of the 256-bit integer type the source imports is not part of this model.
- `AsRaw`: it requires every length in the item to be below 2^64, as the appendix-B encoding needs. Every item the crate parses from a buffer meets this.
- `ExportRoundTrip`: it states that bytes after the root item do not change the result. That rests on the model's reader, which reads one item from the front and ignores what follows. How the `rlp` crate's `Rlp::new` treats bytes after the root item is not part of this model. The lemma also covers the case of no trailing bytes.
- Stack exhaustion from a very deep nesting is not modelled. The recursion of `decode_receipt_vec` is unbounded in the model, as it is in the source.
- The callers in `src/cli/sync.rs` and the other command-line files are not part of this model.
