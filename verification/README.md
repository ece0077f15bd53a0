# Polyjuice provider core, modelled in Dafny

This project models the client-side translation core of the Polyjuice/Godwoken
web3 provider (`packages/base/src/util.ts` and `packages/base/src/process.ts`).
It covers four parts:

- the Polyjuice call-argument codec and its little-endian integer helpers;
- the hex and transaction normalisers;
- the `Godwoker` address resolver and raw-transaction assembler;
- the `buildProcess` orchestrator with its send, call and estimateGas modes.

Everything is a pure function over `string` (hex text) and `seq<Byte>`. The
helpers that the source writes as loops are the exception: they are methods.
The chain is an immutable `Chain` record of lookup maps. Hashing, message
signing, the molecule serialisers, the ABI codec and the execution RPC are
function-valued parameters (oracles).

Modules, one per file:

- `Results` (`results.dfy`): the thrown errors, plus `Option`/`Result`.
- `JsText` (`jstext.dfy`): JavaScript `slice`, `toLowerCase` and `padStart`.
- `Hex` (`hex.dfy`): `isHexString`, `toString(16)`, `BigInt(text)` and the `Buffer` hex conversions.
- `LittleEndian` (`little_endian.dfy`): `writeBigUint64LE`, `UInt*ToLeBytes` and `LeBytesToUInt*`.
- `Normalize` (`normalize.dfy`): `normalizeHexValue`, `formalizeEthToAddress`, `normalizeEthTransaction`, `ethToCkb`/`ckbToEth` and `packSignature`.
- `PolyArgs` (`poly_args.dfy`): `encodeArgs` and `decodeArgs`.
- `L2Types` (`l2_types.dfy`): the layer-2 transaction records and `build(Raw)L2TransactionWithAddressMapping`.
- `GodwokerClient` (`godwoker.dfy`): the address-resolution and assembly methods of `Godwoker`.
- `AbiTranscoder` (`abi_transcoder.dfy`): the address rewriting that `buildProcess` drives through its `Abi`.
- `Process` (`process.dfy`): `buildProcess` and its wrappers.

Two behaviours of the code are easy to misread:

- **Header length.** `encodeArgs` lays out a fixed part of 52 bytes before the data: 3 bytes of `ff`, "POLY", the kind byte, and the 8-, 16-, 16- and 4-byte numbers.
- **Missing gas price.** A missing gas price reaching `encodeArgs` is `BigInt(undefined)`, which throws a `TypeError`. It is not encoded as zero.

## Model

| member | source | states |
|---|---|---|
| Hex.HexValueOfHexDigits | packages/base/src/util.ts:252-257 | `toString(16)` is a faithful rendering: reading its digits back gives the number |
| Hex.HexDigitsMinimal | packages/base/src/util.ts:252-257 | `toString(16)` starts with a zero digit exactly when the number is zero, so its digits are minimal |
| Hex.HexBytesOfBytesToHex | packages/base/src/util.ts:1298-1311 | `Buffer.from(hex, "hex")` inverts `buf.toString("hex")`, whatever text follows |
| Hex.IsHexStringDecodes | packages/base/src/util.ts:222-230 | text that passes `isHexString` decodes to half as many bytes as it has digits, and to exactly `length` bytes when a length is given |
| Hex.ParseBigIntOfHexDigits | packages/base/src/util.ts:471-473 | `BigInt("0x" + n.toString(16))` is `n` again |
| LittleEndian.WriteBigUint64LE | packages/base/src/util.ts:59-77 | byte `offset + k` becomes byte k of the value's low 64 bits, for k in 0..7; every other byte is unchanged; the new offset is `offset + 8` |
| LittleEndian.UInt32ToLeBytes | packages/base/src/util.ts:1272-1276 | accepts exactly the 32-bit values; gives 4 bytes of hex that `LeBytesToUInt32` reads back as the value |
| LittleEndian.UInt64ToLeBytes | packages/base/src/util.ts:1278-1283 | always 8 bytes of hex; `LeBytesToUInt64` reads back the value modulo 2^64 |
| LittleEndian.UInt64ToLeBytesByWriter | packages/base/src/util.ts:1277-1282 | writing the number into a zeroed 8-byte buffer with the modelled `writeBigUInt64LE` renders exactly the text `UInt64ToLeBytes` gives |
| LittleEndian.UInt128ToLeBytes | packages/base/src/util.ts:1285-1296 | "too small" below `U128_MIN` and "too large" above `U128_MAX`; otherwise 16 bytes whose little-endian value is the input, so the low half is bytes 0..7 and the high half is bytes 8..15 |
| LittleEndian.UInt128ToLeBytesByWriter | packages/base/src/util.ts:1285-1296 | after the same range checks, writing the low 64 bits at offset 0 and the high 64 bits at offset 8 of a zeroed 16-byte buffer with the modelled writer renders exactly the text `UInt128ToLeBytes` gives |
| LittleEndian.LeBytesToUInt32 | packages/base/src/util.ts:1298-1301 | fails exactly when fewer than 4 bytes decode; the result is below 2^32 |
| LittleEndian.LeBytesToUInt64 | packages/base/src/util.ts:1303-1306 | fails exactly when fewer than 8 bytes decode; the result is below 2^64 |
| LittleEndian.LeBytesToUInt128 | packages/base/src/util.ts:1308-1311 | fails exactly when fewer than 16 bytes decode; the result is below 2^64, because only bytes 8..16 are read |
| LittleEndian.UInt128RoundTripAsWritten | packages/base/src/util.ts:1285-1311 | encoding a 128-bit value and decoding it as written yields the value shifted right by 64 |
| LittleEndian.UInt128LowHalfLost | packages/base/src/util.ts:1308-1311 | every non-zero value below 2^64, 1 among them, encodes to bytes that decode to 0 rather than to the value |
| LittleEndian.UInt128RoundTrip | packages/base/src/util.ts:1285-1296 | with a reader of all 16 bytes, every 128-bit value round-trips |
| Normalize.NormalizeHexValue | packages/base/src/util.ts:232-268 | succeeds exactly on numbers, bigints and `isHexString` text, and anything else is "invalid hexlify value type"; for a number, a non-negative bigint or hex text the result is `0x` plus an even number of lower-case digits for the same number, and 0 becomes "0x00"; a negative bigint gives `0x` or `0x0`, then "-", then the digits of its magnitude, with an even total length |
| Normalize.NegativeBigIntNotHex | packages/base/src/util.ts:252-257 | a negative bigint is accepted, but its text is not `isHexString` text and normalising it again fails; -1 gives "0x-1" |
| Normalize.NumberLoopOnNaturals | packages/base/src/util.ts:237-240 | the loop as written, on a positive integer, stops within that many passes and yields the digits of `toString(16)` |
| Normalize.NumberLoopNeverEndsOnNegative | packages/base/src/util.ts:237-240 | the loop as written never stops on a negative integer, whatever the number of passes: -1 is a fixed point that prepends "f" each time |
| Normalize.NumberToHex | packages/base/src/util.ts:236-249 | the digit loop yields normal hex for the same number, the same text as the bigint branch, and "0x00" for zero |
| Normalize.NumberAndBigIntAgree | packages/base/src/util.ts:234-257 | a number and the equal bigint normalise to the same text; this follows directly from `NumberToHex`, whose contract carries the content |
| Normalize.NormalizeHexValueIdempotent | packages/base/src/util.ts:259-264 | normal hex text is a fixed point |
| Normalize.NormalizeTwice | packages/base/src/util.ts:232-268 | for a number, a non-negative bigint or hex text, normalising the output of a normalisation changes nothing |
| Normalize.FormalizeEthToAddress | packages/base/src/util.ts:199-211 | absent, empty or "0x" gives `DEFAULT_EMPTY_ETH_ADDRESS`; a 42-character address is kept; any other length is "invalid ETH to_address length" with that length |
| Normalize.ShortZeroToRejected | packages/base/src/util.ts:199-211 | "0x0", a creation target for the encoder, is rejected by the normaliser |
| Normalize.NormalizeEthTransaction | packages/base/src/util.ts:270-285 | "missing From" without a sender; otherwise succeeds exactly when the recipient and the four quantities after their fallbacks are acceptable; the sender is kept and each field renders its source as `NormalizeHexValue` does, negative bigints included |
| Normalize.NormalizedFields | packages/base/src/util.ts:276-283 | gas comes from gas, else gasLimit, else `POLY_MAX_TRANSACTION_GAS_LIMIT`; the gas price comes from gasPrice, else `POLY_MIN_GAS_PRICE`; the value and the data default to zero |
| Normalize.EthToCkb | packages/base/src/util.ts:545-550 | fails on unparsable text or a zero decimal; for a positive decimal the result is the floor of value/decimal |
| Normalize.CkbToEth | packages/base/src/util.ts:552-557 | fails exactly when the text does not parse as a `BigInt`, with that parse error |
| Normalize.CkbEthRoundTrip | packages/base/src/util.ts:545-557 | scaling up by a positive decimal and back down returns the original amount, and the scaled amount is a multiple of the decimal; with the floor bound of `EthToCkb` this makes it exactly value times decimal |
| Normalize.PackSignature | packages/base/src/util.ts:673-678 | everything before the last two characters is kept; when `parseInt` of those two characters is NaN they become "NaN" |
| Normalize.PackSignatureRewritesV | packages/base/src/util.ts:673-678 | the length and every character before the last byte are kept; the last byte v becomes v - 27 when v >= 27 and is kept otherwise |
| Normalize.PackSignatureRecoveryId | packages/base/src/util.ts:673-678 | recovery bytes 27 and 28 become 0 and 1 |
| Normalize.PackSignatureNaN | packages/base/src/util.ts:673-678 | a signature ending in "0x" gets "NaN" as its last byte, since `parseInt` returns NaN there |
| Normalize.PackSignatureSpacedDigit | packages/base/src/util.ts:673-678 | `parseInt` skips leading white space, so a tail of a space and a digit becomes "0" and that digit: "0xab 5" becomes "0xab05" |
| Normalize.PackSignatureNegativeDigit | packages/base/src/util.ts:673-678 | `parseInt` accepts a sign, so a tail "-c" is a negative v below 27 and is written back as "-c", with "-0" becoming "00" |
| PolyArgs.EncodeArgs | packages/base/src/util.ts:479-523 | a missing gas limit or gas price is a TypeError; succeeds exactly when the gas limit parses, the gas price and value fit in 128 bits ("0x" counting as 0), and the data length fits in 32 bits |
| PolyArgs.EncodedPieces | packages/base/src/util.ts:479-523 | at their offsets the encoding holds the header, the kind, the u64 gas limit, the u128 gas price and value, the u32 data length and the data |
| PolyArgs.EncodeArgsLayout | packages/base/src/util.ts:479-523 | the length is 52 bytes plus the data; the header is ff ff ff "POLY"; the kind byte is 03 exactly for a creation target ("0x", "0x0", the zero address) and 00 otherwise |
| PolyArgs.DecodeEncodedArgs | packages/base/src/util.ts:458-477 | decoding an encoding as written returns "POLY", the kind, the data length and the data exactly, the gas limit modulo 2^64, and the gas price and value as their high 64 bits |
| PolyArgs.DecodeArgs | packages/base/src/util.ts:458-477 | arguments shorter than the 52-byte fixed part fail; the data is everything after it; the gas limit, gas price and value it returns are hex quantities below 2^64 |
| PolyArgs.DecodeFullEncodedArgs | packages/base/src/util.ts:458-477 | with the corrected 128-bit reader every field is recovered |
| PolyArgs.DecodeArgsDropsLowGasPrice | packages/base/src/util.ts:470 | any gas price below 2^64 decodes as "0x0" |
| L2Types.BuildL2TransactionWithAddressMapping | packages/base/src/util.ts:416-430 | keeps the signed transaction and the items; the mapping length parses to the item count; the sidecar is the ABI item, or the empty marker when there is none |
| L2Types.BuildRawL2TransactionWithAddressMapping | packages/base/src/util.ts:432-446 | the same for a raw transaction |
| GodwokerClient.ComputeShortAddressByEoaEthAddress | packages/base/src/util.ts:767-773 | the short address is the 20-byte prefix of the EOA lock hash |
| GodwokerClient.EoaLockArgsCarryEthAddress | packages/base/src/util.ts:704-712 | characters 66..106 of the EOA lock args are the Ethereum address |
| GodwokerClient.IsShortAddressOnChain | packages/base/src/util.ts:866-886 | on chain exactly when the lookup returns a non-empty script hash; a failing lookup propagates |
| GodwokerClient.GetShortAddressByAllTypeEthAddress | packages/base/src/util.ts:775-821 | the zero address is the creator address, with no lookup; an on-chain address is returned unchanged as a contract; otherwise the derived short address, typed EOA or not-yet-existing by a second lookup; the save callback fires once, only for a not-yet-existing EOA with saving on |
| GodwokerClient.ZeroAddressNeedsNoLookup | packages/base/src/util.ts:780-785 | the zero address resolves the same way whatever the chain |
| GodwokerClient.CheckEthAddressIsEoa | packages/base/src/util.ts:888-899 | holds exactly when the short address derived from the Ethereum address and the target have the same length and agree letter by letter once upper case is lowered |
| GodwokerClient.CheckEthAddressIsEoaIgnoresCase | packages/base/src/util.ts:888-899 | an address passes against its own short address, and the comparison ignores the case of the target |
| GodwokerClient.GetEthAddressByAllTypeShortAddress | packages/base/src/util.ts:823-864 | the zero address maps to itself; an on-chain EOA gives characters 66..106 of its lock args, and other scripts are returned unchanged; off-chain, the queried address is accepted only when it re-derives the short address, else the lookup fails with a mismatch |
| GodwokerClient.EoaRoundTrip | packages/base/src/util.ts:775-864 | forward then reverse resolution of a known EOA, existing or not, returns the address |
| GodwokerClient.ContractRoundTrip | packages/base/src/util.ts:775-864 | a contract resolves to itself in both directions |
| GodwokerClient.ReversibleRoundTrip | packages/base/src/util.ts:775-864 | forward then reverse resolution returns every known EOA and every on-chain contract |
| GodwokerClient.AllTypeEthAddressToScriptHash | packages/base/src/util.ts:1208-1236 | a length other than 20 bytes is "Invalid eth address length"; the zero address gives the creator account's script hash; otherwise the on-chain hash, or else the EOA lock hash |
| GodwokerClient.AllTypeEthAddressToAccountId | packages/base/src/util.ts:1238-1268 | a length other than 20 bytes is "Invalid eth address length"; the zero address gives the creator id; otherwise a failing on-chain lookup propagates, and the result is the account id the chain records for the on-chain script hash, or else for the EOA lock hash, failing when there is none |
| GodwokerClient.AccountIdIsAccountOfScriptHash | packages/base/src/util.ts:1238-1268 | for a non-zero address, the account id is the account of the address's script hash |
| GodwokerClient.GetAccountIdByEoaEthAddress | packages/base/src/util.ts:739-752 | succeeds exactly when the chain records an account for the hash of the address's EOA lock script, and returns that account |
| GodwokerClient.EoaAccountIdAgrees | packages/base/src/util.ts:739-752 | for a non-zero 20-byte address the chain does not know as a short address, `allTypeEthAddressToAccountId` and `getAccountIdByEoaEthAddress` agree |
| GodwokerClient.GetNonce | packages/base/src/util.ts:913-920 | succeeds exactly when the chain records a nonce for the account, and returns it; a failing RPC method propagates |
| GodwokerClient.AssembleRawL2Transaction | packages/base/src/util.ts:922-936 | succeeds exactly when the sender's account, the receiver's account, the nonce and the arguments all resolve; the ids and nonce parse back to the looked-up numbers, and `args` is the Polyjuice encoding of the transaction |
| AbiTranscoder.ResolveList | packages/base/src/process.ts:112-124 | every address is replaced by its resolved short address, in order; the mapping only grows and keeps each Ethereum address at most once |
| AbiTranscoder.ResolveListMapsEvery | packages/base/src/process.ts:112-124 | after resolution the mapping holds exactly the addresses it held before plus the resolved ones |
| AbiTranscoder.ResolveListTotal | packages/base/src/process.ts:112-124 | resolving a list fails only when resolving one of its addresses fails |
| AbiTranscoder.ResolveListRoundTrip | packages/base/src/process.ts:112-124 | mapping a list of reversible addresses forward and then back returns the list |
| AbiTranscoder.ResolveValue | packages/base/src/process.ts:112-124 | an `address` slot becomes the short address of its value, and each element of an `address[]` slot the short address of that element; other slots are unchanged; the mapping gains exactly the slot's addresses and never repeats an Ethereum address |
| AbiTranscoder.ResolveValueTotal | packages/base/src/process.ts:112-124 | one slot is rewritten whenever every address in it resolves |
| AbiTranscoder.ResolveValues | packages/base/src/process.ts:112-124 | every decoded value is rewritten slot by slot against its declared input type, as the reference `ResolvedValues` says; the mapping keeps its prefix and never gains a repeated Ethereum address |
| AbiTranscoder.ResolveValuesTotal | packages/base/src/process.ts:112-124 | the rewrite succeeds exactly when every address in every `address` and `address[]` slot resolves |
| AbiTranscoder.ResolveValuesMapsEvery | packages/base/src/process.ts:112-124 | after the rewrite the mapping holds an Ethereum address exactly when it held it before or the address sits in one of the rewritten slots |
| AbiTranscoder.RefactorDataWithShortAddress | packages/base/src/process.ts:112-124 | data with no matching ABI item, or whose item has no address inputs, is unchanged and gives an empty mapping; the mapping never repeats an Ethereum address |
| AbiTranscoder.RefactorDataRewritesAddresses | packages/base/src/process.ts:112-124 | for an item with address inputs, the rewrite succeeds exactly when every slot address resolves; the new data is the 4-byte selector followed by the encoding of the rewritten values; the mapping holds exactly the slot addresses |
| AbiTranscoder.ReverseList | packages/base/src/process.ts:185-192 | each short address is replaced by its reverse resolution, in order |
| AbiTranscoder.ReverseListElementwise | packages/base/src/process.ts:185-192 | conversely, when every element reverses to the matching expected address, the list reverses to the expected list |
| AbiTranscoder.ReverseListTotal | packages/base/src/process.ts:185-192 | reversing a list succeeds exactly when every element reverses |
| AbiTranscoder.ReverseValue | packages/base/src/process.ts:185-192 | one slot is mapped back exactly when every short address in it reverses, and then each address is replaced by its Ethereum address |
| AbiTranscoder.ReverseValues | packages/base/src/process.ts:185-192 | every decoded output is mapped back slot by slot, as the reference `ReversedValues` says |
| AbiTranscoder.ReverseValuesTotal | packages/base/src/process.ts:185-192 | mapping the outputs back succeeds exactly when every slot address reverses |
| AbiTranscoder.ResolveValuesRoundTrip | packages/base/src/process.ts:112-124 | rewriting values whose addresses are known EOAs or on-chain contracts and then mapping them back returns the original values |
| AbiTranscoder.RefactorReturnValueWithShortAddress | packages/base/src/process.ts:185-192 | return data of an item without address outputs comes back unchanged |
| AbiTranscoder.RefactorReturnValueRestoresAddresses | packages/base/src/process.ts:185-192 | for an item with address outputs, the rewrite succeeds exactly when every output address reverses, and re-encodes the mapped-back outputs; return data that encodes the forward rewrite of some outputs with reversible addresses comes back as the encoding of those outputs |
| Process.CheckPreconditions | packages/base/src/process.ts:93-108 | send needs a sender and a signing method, and estimateGas needs its estimate method; the first violated check decides the error |
| Process.PrepareSteps | packages/base/src/process.ts:110-135 | the prefix succeeds exactly when the rewrite, the normaliser and the assembler all accept. Then the sender defaults to `default_from_address`, the data goes through the address rewriting, and the raw transaction is what the assembler builds from the normalised transaction, so its arguments are that transaction's Polyjuice encoding |
| Process.BuildSerializeAddressMappingAbiItem | packages/base/src/process.ts:204-213 | the empty marker when no item matches or the item has no address inputs; otherwise the serialised item |
| AbiTranscoder.InterestedParams | packages/base/src/process.ts:208 | the interested inputs are exactly the parameters declared `address` or `address[]` |
| Process.SidecarOfRewrittenData | packages/base/src/process.ts:158-161 | for an ABI whose lookup depends only on the selector, the sidecar built from the rewritten data is the sidecar of the original data, because the rewrite keeps the selector |
| Process.Dispatch | packages/base/src/process.ts:137-201 | a prefix failure is the result in every mode; estimateGas returns the assembled raw transaction; an unknown mode fails only after the prefix; send and call return text |
| Process.BuildProcess | packages/base/src/process.ts:87-202 | a failed check is reported before any lookup; otherwise the result is the dispatch over the common prefix; an unknown mode always fails |
| Process.SendPreconditionsNeedNoLookup | packages/base/src/process.ts:93-100 | a send without a sender or signing method fails the same way whatever the chain and oracles |
| Process.SigningTypeDefaultsToPrefix | packages/base/src/process.ts:139-140 | an absent signing-message type behaves as "with prefix" |
| Process.AssembledReceiverParses | packages/base/src/process.ts:146-148 | `parseInt(to_id, 16)` recovers the receiver account the assembler resolved |
| Process.SendOutput | packages/base/src/process.ts:138-168 | a successful send has the signing callback accept, and serialises the transaction, signed through `packSignature` over the message for the assembled transaction, the sender's lock hash and the receiver's script hash, with the address mapping and ABI sidecar attached |
| Process.SignerRejectionFailsSend | packages/base/src/process.ts:156 | a signing method that rejects makes the send fail, with the signer's own error once the receiver lookup has succeeded |
| Process.CallWithoutAbiItemReturnsRawData | packages/base/src/process.ts:171-186 | when the original data matches no ABI item and the prefix succeeds, a call returns the execution's return data unmodified, or the execution's error |
| Process.CallWithAbiItemRewritesReturnData | packages/base/src/process.ts:171-192 | when the original data matches an ABI item and the prefix succeeds, a call returns the execution's return data mapped back through `refactor_return_value_with_short_address`; a failure of either step is the result |
| Process.BuildSendTransaction | packages/base/src/process.ts:31-50 | a missing sender or signing method is reported; succeeds exactly when the send process does, and then returns the text the send process produced |
| Process.ExecuteCallTransaction | packages/base/src/process.ts:52-65 | succeeds exactly when the call process does, and then returns the text the call process produced |
| Process.IsRawL2TransactionExactly | packages/base/src/process.ts:215-222 | `isRawL2Transaction` holds exactly for records that have all four raw-transaction fields |
| Process.RawResult | packages/base/src/process.ts:76-84 | the estimate wrapper passes a record through, rejects a string, and propagates a failure |
| Process.EstimateGasAsWrittenAlwaysFails | packages/base/src/process.ts:67-85 | the wrapper as written never returns a transaction: every successful run is rejected as a string |
| Process.EstimateGasCorrectedReturnsAssembled | packages/base/src/process.ts:195-197 | with the estimateGas tag the wrapper returns exactly the assembled raw transaction, and fails exactly when the common prefix does |

## Left out

- JSON-RPC transport: the jayson and `fetch` client and `jsonRPC`. Every lookup is a map in `Chain`; a method in `failing` rejects, and an absent key is a null result.
- Configuration discovery: `init`/`initSync` fetch the configuration concurrently. The configuration is a fixed `Godwoker` value.
- Polling: `waitForTransactionReceipt` and `asyncSleep` depend on timers.
- Wire serialisation: the molecule serialisers, `serializeL2TransactionWithAddressMapping` and `encodeSudtTransferArgs` belong to a foreign schema library. Serialisation is an oracle of `Services`.
- Hashing and signing: `utils.computeScriptHash` and `generateTransactionMessageToSign` are oracles. The signing callback and the serialiser are plain functions returning a `Result`, not promises; a rejection is their error.
- ABI internals: abi.ts and web3-eth-abi are not part of this model. Matching, decoding, encoding and serialising an ABI item are oracles of `Abi`. Resolution rewrites top-level `address` and `address[]` arguments left to right.
- `verifyHttpUrl`: it depends on the URL library.
- The Buffer monkey-patch itself: only the byte function `writeBigUint64LE` is modelled.
- Normalize.NumberToHex: JavaScript `number` arithmetic is floating point. The model uses naturals, so negative, fractional and out-of-range numbers are not covered. The source's digit loop does not terminate for a negative or infinite number (`Math.floor(-1 / 16)` is -1), so a natural is what makes it stop; `NumberLoopNeverEndsOnNegative` states this for the negative integers.
- `BigInt(text)` accepts more syntax than modelled: surrounding whitespace, signs, `0o`/`0b`. Hex.ParseBigInt covers empty, decimal and `0x` text.
- AbiTranscoder: abi.ts is not part of this model, so four behaviours are assumptions rather than readings of code. Three are of `refactor_data_with_short_address`: the mapping is deduplicated by Ethereum address (`AddMapping`); it gains an entry for every resolved address, the creator zero address and contracts included (`ResolveList`); and addresses are resolved, and handed to the save callback, left to right. The fourth is that `filter_interested_inputs` keeps exactly the parameters of type `address` or `address[]` (`InterestedParams`).
- Normalize.NormalizeTwice: a negative bigint normalises to text that is not hex, so idempotence is stated for numbers, non-negative bigints and hex text only (`NegativeBigIntNotHex` states the failure).
- `Number.parseInt(_, 16)` is modelled on exact integers. JavaScript numbers lose precision beyond 2^53; `packSignature` only reads two characters, and `to_id` is a 32-bit account id.
- `toLowerCase` is modelled on ASCII only. All the text it meets is hex.
- The UTF-8 decoding of the `decodeArgs` header: PolyArgs keeps the header as its bytes.
- Mutation of `tx.from` by `buildProcess`: the model returns values instead.
- Side effects: pairs handed to the save callback are returned as a `saved` list, and are not discarded when a later step fails.
- The `lockCodeHash` of the configuration is a string. An unset value (`undefined`) is not distinguished from other strings.
- constant.ts is not part of this model. `DEFAULT_EMPTY_ETH_ADDRESS` is `0x` with 40 zeros, and `U128_MIN`/`U128_MAX` are the 128-bit bounds. `POLY_MAX_TRANSACTION_GAS_LIMIT`, `POLY_MIN_GAS_PRICE` and `EMPTY_ABI_ITEM_SERIALIZE_STR` have assumed values, and the contracts refer to them by name.
- `ethToCkb`'s `decimal` is taken as a parameter, since its default comes from constant.ts.
- Normalize.EthToCkb: the floor bounds are stated for positive decimals only; for a negative decimal the model truncates toward zero, as `BigInt` does, without a stated bound.
- Process.BuildProcess: the estimateGas mode only checks that the estimate hook is present, as the source does; the hook is never called.

## Findings

| source | as written | input that shows it | evidently intended | confidence | as-written member | corrected member |
|---|---|---|---|---|---|---|
| packages/base/src/util.ts:1308-1311 | `LeBytesToUInt128` reads only bytes 8..16, so `decodeArgs` returns the gas price and value shifted right by 64 bits | gas price 1 encodes and decodes as "0x0" | read both 64-bit halves and combine them | not executed | LittleEndian.UInt128LowHalfLost | LittleEndian.UInt128RoundTrip |
| packages/base/src/util.ts:237-240 | the `number` branch of `normalizeHexValue` loops `while (value)` with `value = Math.floor(value / 16)`, which never reaches 0 from a negative number | `normalizeHexValue(-1)` | reject a negative number, or stop for it | not executed | Normalize.NumberLoopNeverEndsOnNegative | Normalize.NumberToHex |
| packages/base/src/process.ts:72-77 | `buildEstimateGasTransaction` runs `buildProcess` with the `call` tag, which yields a string, and then throws on that string | any transaction whose call succeeds | run with the `estimateGas` tag and return the raw transaction | not executed | Process.EstimateGasAsWrittenAlwaysFails | Process.EstimateGasCorrectedReturnsAssembled |
