/** The Godwoken transaction records the provider builds, and the two
    `build*WithAddressMapping` constructors that attach an address mapping
    and an ABI-item sidecar to them. The molecule wire encoding of these
    records is not part of this model. */
module L2Types {
  import opened Results
  import opened Hex

  /** The "no ABI item" marker for the sidecar; constant.ts is not part of
      this model, so the value here is a placeholder and the properties below
      refer to it by name. */
  const EMPTY_ABI_ITEM_SERIALIZE_STR: string := "0x"

  /** `RawL2Transaction`: ids and nonce as hex quantities, `args` the
      Polyjuice call arguments. */
  datatype RawL2Transaction = RawL2Transaction(fromId: string, toId: string, nonce: string, args: string)

  datatype L2Transaction = L2Transaction(raw: RawL2Transaction, signature: string)

  /** One (eth address, short address) pair discovered while rewriting call data. */
  datatype AddressMappingItem = AddressMappingItem(ethAddress: string, gwShortAddress: string)

  /** `AddressMapping`: the item count as a hex quantity, and the items. */
  datatype AddressMapping = AddressMapping(length: string, data: seq<AddressMappingItem>)

  datatype L2TransactionWithAddressMapping =
    L2TransactionWithAddressMapping(tx: L2Transaction, addresses: AddressMapping, extra: string)

  datatype RawL2TransactionWithAddressMapping =
    RawL2TransactionWithAddressMapping(rawTx: RawL2Transaction, addresses: AddressMapping, extra: string)

  /** The mapping record for a vector of items: its length field is
      `"0x" + items.length.toString(16)`. */
  function MappingOf(items: seq<AddressMappingItem>): (r: AddressMapping)
    ensures r.data == items
    ensures ParseBigInt(r.length) == Ok(|items|)
  {
    ParseBigIntOfHexDigits(|items|);
    AddressMapping("0x" + HexDigits(|items|), items)
  }

  /** `abiItem || EMPTY_ABI_ITEM_SERIALIZE_STR`. */
  function Sidecar(abiItem: Option<string>): (r: string)
    ensures abiItem.Some? && abiItem.value != "" ==> r == abiItem.value
    ensures abiItem.None? || abiItem.value == "" ==> r == EMPTY_ABI_ITEM_SERIALIZE_STR
  {
    if abiItem.Some? && abiItem.value != "" then abiItem.value else EMPTY_ABI_ITEM_SERIALIZE_STR
  }

  /** `buildL2TransactionWithAddressMapping(tx, items, abiItem)`. */
  function BuildL2TransactionWithAddressMapping(tx: L2Transaction, items: seq<AddressMappingItem>, abiItem: Option<string>)
    : (r: L2TransactionWithAddressMapping)
    ensures r.tx == tx && r.addresses.data == items
    ensures ParseBigInt(r.addresses.length) == Ok(|items|)
    ensures r.extra == Sidecar(abiItem)
  {
    L2TransactionWithAddressMapping(tx, MappingOf(items), Sidecar(abiItem))
  }

  /** `buildRawL2TransactionWithAddressMapping(tx, items, abiItem)`. */
  function BuildRawL2TransactionWithAddressMapping(tx: RawL2Transaction, items: seq<AddressMappingItem>, abiItem: Option<string>)
    : (r: RawL2TransactionWithAddressMapping)
    ensures r.rawTx == tx && r.addresses.data == items
    ensures ParseBigInt(r.addresses.length) == Ok(|items|)
    ensures r.extra == Sidecar(abiItem)
  {
    RawL2TransactionWithAddressMapping(tx, MappingOf(items), Sidecar(abiItem))
  }
}
