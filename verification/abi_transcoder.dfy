/** The ABI address transcoder the orchestrator drives: it rewrites the
    top-level `address` and `address[]` arguments of a matched call from
    Ethereum addresses to Godwoken short addresses (collecting the address
    mapping as it goes), and rewrites a call's address outputs back. abi.ts
    and web3-eth-abi are not part of this model: matching a payload to an
    ABI item, decoding, encoding and serialising an item are oracle
    functions of the `Abi` value. */
module AbiTranscoder {
  import opened Results
  import opened JsText
  import opened L2Types
  import opened GodwokerClient

  datatype AbiParam = AbiParam(name: string, typ: string)

  datatype AbiItem = AbiItem(name: string, inputs: seq<AbiParam>, outputs: seq<AbiParam>)

  /** A decoded parameter, as far as the transcoder looks into it. */
  datatype AbiValue = AddressValue(address: string) | AddressList(addresses: seq<string>) | OtherValue(encoded: string)

  datatype Abi = Abi(
    /** `get_interested_abi_item_by_encoded_data(data)`: the item whose
        selector starts `data`, if any. */
    interestedItem: string -> Option<AbiItem>,
    /** `decodeParameters(params, hex)`. */
    decode: (seq<AbiParam>, string) -> seq<AbiValue>,
    /** `encodeParameters(params, values)`, `0x`-prefixed. */
    encode: (seq<AbiParam>, seq<AbiValue>) -> string,
    /** `serializeAbiItem(item)`. */
    serialize: AbiItem -> string)

  predicate IsAddressType(typ: string)
  {
    typ == "address" || typ == "address[]"
  }

  /** `filter_interested_inputs`: the parameters of an address type. */
  function InterestedParams(params: seq<AbiParam>): (r: seq<AbiParam>)
    ensures forall p :: p in r <==> p in params && IsAddressType(p.typ)
  {
    if params == [] then []
    else (if IsAddressType(params[0].typ) then [params[0]] else []) + InterestedParams(params[1..])
  }

  /** The type declared for position `i` ("" past the declared parameters). */
  function TypeAt(params: seq<AbiParam>, i: nat): string
  {
    if i < |params| then params[i].typ else ""
  }

  /** Dropping the first parameter shifts the declared types down by one. */
  lemma {:induction false} TypeAtDrop(params: seq<AbiParam>, i: nat)
    requires i >= 1
    ensures TypeAt(params, i) == TypeAt(Drop(params, 1), i - 1)
  {
    if params != [] {
      assert Drop(params, 1) == params[1..];
    }
  }

  predicate HasEth(mapping: seq<AddressMappingItem>, ethAddress: string)
  {
    exists i :: 0 <= i < |mapping| && mapping[i].ethAddress == ethAddress
  }

  /** The address mapping invariant: no Ethereum address appears twice. */
  predicate DistinctEth(mapping: seq<AddressMappingItem>)
  {
    forall i, j :: 0 <= i < j < |mapping| ==> mapping[i].ethAddress != mapping[j].ethAddress
  }

  /** Adds a pair unless its Ethereum address is already mapped. */
  function AddMapping(mapping: seq<AddressMappingItem>, item: AddressMappingItem): (r: seq<AddressMappingItem>)
    ensures mapping <= r && HasEth(r, item.ethAddress)
    ensures DistinctEth(mapping) ==> DistinctEth(r)
    ensures forall e :: HasEth(r, e) <==> HasEth(mapping, e) || e == item.ethAddress
  {
    if HasEth(mapping, item.ethAddress) then mapping
    else
      var r := mapping + [item];
      assert r[|mapping|].ethAddress == item.ethAddress;
      assert forall e :: HasEth(mapping, e) ==> HasEth(r, e) by {
        forall e | HasEth(mapping, e)
          ensures HasEth(r, e)
        {
          var i :| 0 <= i < |mapping| && mapping[i].ethAddress == e;
          assert r[i] == mapping[i];
        }
      }
      r
  }

  /** What forward resolution has collected so far: the mapping, and the
      pairs handed to the save callback. */
  datatype Collected = Collected(mapping: seq<AddressMappingItem>, saved: seq<AddressMappingItem>)

  /** Resolves a list of addresses left to right. */
  function ResolveList(g: Godwoker, chain: Chain, addresses: seq<string>, c: Collected)
    : (r: Result<(seq<string>, Collected)>)
    ensures r.Ok? ==> |r.value.0| == |addresses|
    ensures r.Ok? ==> forall i :: 0 <= i < |addresses| ==>
      GetShortAddressByAllTypeEthAddress(g, chain, addresses[i]).Ok? &&
      r.value.0[i] == GetShortAddressByAllTypeEthAddress(g, chain, addresses[i]).value.shortAddress.value
    ensures r.Ok? ==> c.mapping <= r.value.1.mapping
    ensures r.Ok? && DistinctEth(c.mapping) ==> DistinctEth(r.value.1.mapping)
    decreases |addresses|
  {
    if addresses == [] then Ok(([], c))
    else
      var res :- GetShortAddressByAllTypeEthAddress(g, chain, addresses[0]);
      var short := res.shortAddress.value;
      var c1 := Collected(AddMapping(c.mapping, AddressMappingItem(addresses[0], short)), c.saved + res.saved);
      var rest :- ResolveList(g, chain, addresses[1..], c1);
      var r := [short] + rest.0;
      assert forall i :: 1 <= i < |addresses| ==> addresses[i] == addresses[1..][i - 1] && r[i] == rest.0[i - 1];
      Ok((r, rest.1))
  }

  /** After a successful resolution the mapping holds exactly the addresses
      it held before and the resolved ones. */
  lemma {:induction false} ResolveListMapsEvery(g: Godwoker, chain: Chain, addresses: seq<string>, c: Collected)
    requires ResolveList(g, chain, addresses, c).Ok?
    ensures forall e :: HasEth(ResolveList(g, chain, addresses, c).value.1.mapping, e) <==>
      HasEth(c.mapping, e) || e in addresses
    decreases |addresses|
  {
    if addresses != [] {
      var res := GetShortAddressByAllTypeEthAddress(g, chain, addresses[0]).value;
      var c1 := Collected(AddMapping(c.mapping, AddressMappingItem(addresses[0], res.shortAddress.value)),
                          c.saved + res.saved);
      ResolveListMapsEvery(g, chain, addresses[1..], c1);
      assert forall e :: e in addresses <==> e == addresses[0] || e in addresses[1..];
    }
  }

  /** Resolution fails only when resolving one of the addresses fails. */
  lemma {:induction false} ResolveListTotal(g: Godwoker, chain: Chain, addresses: seq<string>, c: Collected)
    requires forall a :: a in addresses ==> GetShortAddressByAllTypeEthAddress(g, chain, a).Ok?
    ensures ResolveList(g, chain, addresses, c).Ok?
    decreases |addresses|
  {
    if addresses != [] {
      var res := GetShortAddressByAllTypeEthAddress(g, chain, addresses[0]).value;
      var c1 := Collected(AddMapping(c.mapping, AddressMappingItem(addresses[0], res.shortAddress.value)),
                          c.saved + res.saved);
      assert forall a :: a in addresses[1..] ==> a in addresses;
      ResolveListTotal(g, chain, addresses[1..], c1);
    }
  }

  /** Forward resolution followed by reverse resolution gives the list back
      when every address in it is reversible. */
  lemma {:induction false} ResolveListRoundTrip(g: Godwoker, chain: Chain, addresses: seq<string>, c: Collected)
    requires forall a :: a in addresses ==> Reversible(g, chain, a)
    ensures ResolveList(g, chain, addresses, c).Ok?
    ensures ReverseList(g, chain, ResolveList(g, chain, addresses, c).value.0) == Ok(addresses)
  {
    forall a | a in addresses
      ensures GetShortAddressByAllTypeEthAddress(g, chain, a).Ok?
    {
      ReversibleRoundTrip(g, chain, a);
    }
    ResolveListTotal(g, chain, addresses, c);
    var shorts := ResolveList(g, chain, addresses, c).value.0;
    forall i | 0 <= i < |addresses|
      ensures GetEthAddressByAllTypeShortAddress(g, chain, shorts[i]) == Ok(addresses[i])
    {
      ReversibleRoundTrip(g, chain, addresses[i]);
    }
    ReverseListElementwise(g, chain, shorts, addresses);
  }

  /** Whether forward resolution of `a` succeeds. */
  predicate Resolves(g: Godwoker, chain: Chain, a: string)
  {
    GetShortAddressByAllTypeEthAddress(g, chain, a).Ok?
  }

  /** The short address `a` resolves to ("" when it does not resolve). */
  function ShortOf(g: Godwoker, chain: Chain, a: string): string
  {
    var r := GetShortAddressByAllTypeEthAddress(g, chain, a);
    if r.Ok? then r.value.shortAddress.value else ""
  }

  /** The addresses a decoded value carries under its declared type: the
      address of an `address` value, the elements of an `address[]` value,
      none otherwise. */
  function SlotAddresses(typ: string, v: AbiValue): seq<string>
  {
    match v
    case AddressValue(a) => if typ == "address" then [a] else []
    case AddressList(addresses) => if typ == "address[]" then addresses else []
    case OtherValue(_) => []
  }

  /** Reference definition of the forward rewrite of one value: each address
      it carries under its declared type is replaced by its short address,
      independently of the others. */
  function ResolvedValue(g: Godwoker, chain: Chain, typ: string, v: AbiValue): AbiValue
  {
    match v
    case AddressValue(a) => if typ == "address" then AddressValue(ShortOf(g, chain, a)) else v
    case AddressList(addresses) =>
      if typ == "address[]" then AddressList(seq(|addresses|, j requires 0 <= j < |addresses| => ShortOf(g, chain, addresses[j])))
      else v
    case OtherValue(_) => v
  }

  /** The forward rewrite of every value under the type declared at its position. */
  function ResolvedValues(g: Godwoker, chain: Chain, params: seq<AbiParam>, values: seq<AbiValue>): seq<AbiValue>
  {
    seq(|values|, i requires 0 <= i < |values| => ResolvedValue(g, chain, TypeAt(params, i), values[i]))
  }

  /** Every address the values carry resolves. */
  predicate AllSlotsResolve(g: Godwoker, chain: Chain, params: seq<AbiParam>, values: seq<AbiValue>)
  {
    forall i, a :: 0 <= i < |values| && a in SlotAddresses(TypeAt(params, i), values[i]) ==> Resolves(g, chain, a)
  }

  /** `e` is one of the addresses the values carry. */
  predicate InSlots(params: seq<AbiParam>, values: seq<AbiValue>, e: string)
  {
    exists i :: 0 <= i < |values| && e in SlotAddresses(TypeAt(params, i), values[i])
  }

  /** Rewrites one decoded parameter of the declared type. */
  function ResolveValue(g: Godwoker, chain: Chain, typ: string, v: AbiValue, c: Collected)
    : (r: Result<(AbiValue, Collected)>)
    ensures r.Ok? ==> r.value.0 == ResolvedValue(g, chain, typ, v)
    ensures r.Ok? ==> forall a :: a in SlotAddresses(typ, v) ==> Resolves(g, chain, a)
    ensures r.Ok? ==> forall e :: HasEth(r.value.1.mapping, e) <==> HasEth(c.mapping, e) || e in SlotAddresses(typ, v)
    ensures r.Ok? ==> c.mapping <= r.value.1.mapping
    ensures r.Ok? && DistinctEth(c.mapping) ==> DistinctEth(r.value.1.mapping)
  {
    match v
    case AddressValue(a) =>
      if typ == "address" then
        var res :- ResolveList(g, chain, [a], c);
        ResolveListMapsEvery(g, chain, [a], c);
        Ok((AddressValue(res.0[0]), res.1))
      else Ok((v, c))
    case AddressList(addresses) =>
      if typ == "address[]" then
        var res :- ResolveList(g, chain, addresses, c);
        ResolveListMapsEvery(g, chain, addresses, c);
        assert res.0 == seq(|addresses|, j requires 0 <= j < |addresses| => ShortOf(g, chain, addresses[j]));
        Ok((AddressList(res.0), res.1))
      else Ok((v, c))
    case OtherValue(_) => Ok((v, c))
  }

  /** One value is rewritten whenever every address it carries resolves. */
  lemma {:induction false} ResolveValueTotal(g: Godwoker, chain: Chain, typ: string, v: AbiValue, c: Collected)
    requires forall a :: a in SlotAddresses(typ, v) ==> Resolves(g, chain, a)
    ensures ResolveValue(g, chain, typ, v, c).Ok?
  {
    match v
    case AddressValue(a) =>
      if typ == "address" {
        assert SlotAddresses(typ, v) == [a] && Resolves(g, chain, a);
        ResolveListTotal(g, chain, [a], c);
      }
    case AddressList(addresses) =>
      if typ == "address[]" {
        assert SlotAddresses(typ, v) == addresses;
        assert forall a :: a in addresses ==> Resolves(g, chain, a);
        ResolveListTotal(g, chain, addresses, c);
      }
    case OtherValue(_) =>
  }

  /** Rewrites the decoded parameters position by position: each comes back
      as its forward rewrite, and the mapping only grows and stays free of
      duplicate Ethereum addresses. */
  function ResolveValues(g: Godwoker, chain: Chain, params: seq<AbiParam>, values: seq<AbiValue>, c: Collected)
    : (r: Result<(seq<AbiValue>, Collected)>)
    ensures r.Ok? ==> r.value.0 == ResolvedValues(g, chain, params, values)
    ensures r.Ok? ==> c.mapping <= r.value.1.mapping
    ensures r.Ok? && DistinctEth(c.mapping) ==> DistinctEth(r.value.1.mapping)
    decreases |values|
  {
    if values == [] then Ok(([], c))
    else
      var first :- ResolveValue(g, chain, TypeAt(params, 0), values[0], c);
      var rest :- ResolveValues(g, chain, Drop(params, 1), values[1..], first.1);
      TypeAtDropAll(params, |values|);
      assert forall i :: 1 <= i < |values| ==> values[i] == values[1..][i - 1];
      Ok(([first.0] + rest.0, rest.1))
  }

  lemma {:induction false} TypeAtDropAll(params: seq<AbiParam>, n: nat)
    ensures forall i :: 1 <= i < n ==> TypeAt(params, i) == TypeAt(Drop(params, 1), i - 1)
  {
    forall i | 1 <= i < n
      ensures TypeAt(params, i) == TypeAt(Drop(params, 1), i - 1)
    {
      TypeAtDrop(params, i);
    }
  }

  /** The rewrite fails exactly when some address the values carry does not
      resolve. */
  lemma {:induction false} ResolveValuesTotal(g: Godwoker, chain: Chain, params: seq<AbiParam>, values: seq<AbiValue>,
                                              c: Collected)
    ensures ResolveValues(g, chain, params, values, c).Ok? <==> AllSlotsResolve(g, chain, params, values)
    decreases |values|
  {
    if values != [] {
      TypeAtDropAll(params, |values|);
      assert forall i :: 1 <= i < |values| ==> values[i] == values[1..][i - 1];
      var t := TypeAt(params, 0);
      if forall a :: a in SlotAddresses(t, values[0]) ==> Resolves(g, chain, a) {
        ResolveValueTotal(g, chain, t, values[0], c);
        var first := ResolveValue(g, chain, t, values[0], c).value;
        ResolveValuesTotal(g, chain, Drop(params, 1), values[1..], first.1);
        if AllSlotsResolve(g, chain, params, values) {
          assert AllSlotsResolve(g, chain, Drop(params, 1), values[1..]) by {
            forall i, a | 0 <= i < |values[1..]| && a in SlotAddresses(TypeAt(Drop(params, 1), i), values[1..][i])
              ensures Resolves(g, chain, a)
            {
              assert a in SlotAddresses(TypeAt(params, i + 1), values[i + 1]);
            }
          }
        } else {
          var i, a :| 0 <= i < |values| && a in SlotAddresses(TypeAt(params, i), values[i]) && !Resolves(g, chain, a);
          assert i != 0;
          assert a in SlotAddresses(TypeAt(Drop(params, 1), i - 1), values[1..][i - 1]);
        }
      } else {
        assert !AllSlotsResolve(g, chain, params, values);
      }
    }
  }

  /** After a successful rewrite the mapping holds exactly the pairs it held
      before and one for each address the values carry. */
  lemma {:induction false} ResolveValuesMapsEvery(g: Godwoker, chain: Chain, params: seq<AbiParam>, values: seq<AbiValue>,
                                                  c: Collected)
    requires ResolveValues(g, chain, params, values, c).Ok?
    ensures forall e :: HasEth(ResolveValues(g, chain, params, values, c).value.1.mapping, e) <==>
      HasEth(c.mapping, e) || InSlots(params, values, e)
    decreases |values|
  {
    if values != [] {
      TypeAtDropAll(params, |values|);
      assert forall i :: 1 <= i < |values| ==> values[i] == values[1..][i - 1];
      var t := TypeAt(params, 0);
      var first := ResolveValue(g, chain, t, values[0], c).value;
      ResolveValuesMapsEvery(g, chain, Drop(params, 1), values[1..], first.1);
      forall e
        ensures InSlots(params, values, e) <==> e in SlotAddresses(t, values[0]) || InSlots(Drop(params, 1), values[1..], e)
      {
        if InSlots(params, values, e) {
          var i :| 0 <= i < |values| && e in SlotAddresses(TypeAt(params, i), values[i]);
          if i > 0 {
            assert e in SlotAddresses(TypeAt(Drop(params, 1), i - 1), values[1..][i - 1]);
          }
        }
        if InSlots(Drop(params, 1), values[1..], e) {
          var i :| 0 <= i < |values[1..]| && e in SlotAddresses(TypeAt(Drop(params, 1), i), values[1..][i]);
          assert e in SlotAddresses(TypeAt(params, i + 1), values[i + 1]);
        }
      }
    }
  }

  /** The result of the forward rewrite. */
  datatype Refactored = Refactored(data: string, mapping: seq<AddressMappingItem>, saved: seq<AddressMappingItem>)

  /** `refactor_data_with_short_address(data, resolver, setMapping)`: the
      payload with its address arguments resolved, re-encoded after the
      original 4-byte selector. */
  function RefactorDataWithShortAddress(abi: Abi, g: Godwoker, chain: Chain, data: string): (r: Result<Refactored>)
    ensures abi.interestedItem(data).None? ==> r == Ok(Refactored(data, [], []))
    ensures abi.interestedItem(data).Some? && InterestedParams(abi.interestedItem(data).value.inputs) == [] ==>
      r == Ok(Refactored(data, [], []))
    ensures r.Ok? ==> DistinctEth(r.value.mapping)
  {
    match abi.interestedItem(data)
    case None => Ok(Refactored(data, [], []))
    case Some(item) =>
      if InterestedParams(item.inputs) == [] then Ok(Refactored(data, [], []))
      else
        var values := abi.decode(item.inputs, Drop(data, 10));
        var res :- ResolveValues(g, chain, item.inputs, values, Collected([], []));
        Ok(Refactored(Slice(data, 0, 10) + Drop(abi.encode(item.inputs, res.0), 2), res.1.mapping, res.1.saved))
  }

  /** For an item with address inputs, the rewrite succeeds exactly when
      every address among the decoded arguments resolves; the data is then
      the original selector followed by the arguments re-encoded with each
      address replaced by its short address, and the mapping holds exactly one
      pair per distinct address among them. */
  lemma {:induction false} RefactorDataRewritesAddresses(abi: Abi, g: Godwoker, chain: Chain, data: string)
    requires abi.interestedItem(data).Some? && InterestedParams(abi.interestedItem(data).value.inputs) != []
    ensures var item := abi.interestedItem(data).value;
      var values := abi.decode(item.inputs, Drop(data, 10));
      var r := RefactorDataWithShortAddress(abi, g, chain, data);
      && (r.Ok? <==> AllSlotsResolve(g, chain, item.inputs, values))
      && (r.Ok? ==>
            r.value.data == Slice(data, 0, 10) + Drop(abi.encode(item.inputs, ResolvedValues(g, chain, item.inputs, values)), 2))
      && (r.Ok? ==> forall e :: HasEth(r.value.mapping, e) <==> InSlots(item.inputs, values, e))
  {
    var item := abi.interestedItem(data).value;
    var values := abi.decode(item.inputs, Drop(data, 10));
    ResolveValuesTotal(g, chain, item.inputs, values, Collected([], []));
    if ResolveValues(g, chain, item.inputs, values, Collected([], [])).Ok? {
      ResolveValuesMapsEvery(g, chain, item.inputs, values, Collected([], []));
      assert forall e :: !HasEth([], e);
    }
  }

  /** Maps a list of short addresses back, left to right. */
  function ReverseList(g: Godwoker, chain: Chain, addresses: seq<string>): (r: Result<seq<string>>)
    ensures r.Ok? ==> |r.value| == |addresses|
    ensures r.Ok? ==> forall i :: 0 <= i < |addresses| ==>
      GetEthAddressByAllTypeShortAddress(g, chain, addresses[i]) == Ok(r.value[i])
    decreases |addresses|
  {
    if addresses == [] then Ok([])
    else
      var first :- GetEthAddressByAllTypeShortAddress(g, chain, addresses[0]);
      var rest :- ReverseList(g, chain, addresses[1..]);
      var r := [first] + rest;
      assert forall i :: 1 <= i < |addresses| ==> addresses[i] == addresses[1..][i - 1] && r[i] == rest[i - 1];
      Ok(r)
  }

  /** Reverse resolution of a list succeeds with `expected` when each
      element reverses to the matching element of `expected`. */
  lemma {:induction false} ReverseListElementwise(g: Godwoker, chain: Chain, addresses: seq<string>, expected: seq<string>)
    requires |addresses| == |expected|
    requires forall i :: 0 <= i < |addresses| ==> GetEthAddressByAllTypeShortAddress(g, chain, addresses[i]) == Ok(expected[i])
    ensures ReverseList(g, chain, addresses) == Ok(expected)
    decreases |addresses|
  {
    if addresses != [] {
      assert forall i :: 0 <= i < |addresses| - 1 ==> addresses[1..][i] == addresses[i + 1] && expected[1..][i] == expected[i + 1];
      ReverseListElementwise(g, chain, addresses[1..], expected[1..]);
      assert expected == [expected[0]] + expected[1..];
    }
  }

  /** Reverse resolution of a list succeeds whenever each element reverses. */
  lemma {:induction false} ReverseListTotal(g: Godwoker, chain: Chain, addresses: seq<string>)
    requires forall a :: a in addresses ==> GetEthAddressByAllTypeShortAddress(g, chain, a).Ok?
    ensures ReverseList(g, chain, addresses).Ok?
  {
    var expected := seq(|addresses|, j requires 0 <= j < |addresses| => EthOf(g, chain, addresses[j]));
    assert forall j :: 0 <= j < |addresses| ==> addresses[j] in addresses;
    ReverseListElementwise(g, chain, addresses, expected);
  }

  /** Whether reverse resolution of `a` succeeds. */
  predicate Reverses(g: Godwoker, chain: Chain, a: string)
  {
    GetEthAddressByAllTypeShortAddress(g, chain, a).Ok?
  }

  /** The Ethereum address `a` reverses to ("" when it does not reverse). */
  function EthOf(g: Godwoker, chain: Chain, a: string): string
  {
    var r := GetEthAddressByAllTypeShortAddress(g, chain, a);
    if r.Ok? then r.value else ""
  }

  /** Reference definition of the reverse rewrite of one value. */
  function ReversedValue(g: Godwoker, chain: Chain, typ: string, v: AbiValue): AbiValue
  {
    match v
    case AddressValue(a) => if typ == "address" then AddressValue(EthOf(g, chain, a)) else v
    case AddressList(addresses) =>
      if typ == "address[]" then AddressList(seq(|addresses|, j requires 0 <= j < |addresses| => EthOf(g, chain, addresses[j])))
      else v
    case OtherValue(_) => v
  }

  function ReversedValues(g: Godwoker, chain: Chain, params: seq<AbiParam>, values: seq<AbiValue>): seq<AbiValue>
  {
    seq(|values|, i requires 0 <= i < |values| => ReversedValue(g, chain, TypeAt(params, i), values[i]))
  }

  /** Every address the values carry reverses. */
  predicate AllSlotsReverse(g: Godwoker, chain: Chain, params: seq<AbiParam>, values: seq<AbiValue>)
  {
    forall i, a :: 0 <= i < |values| && a in SlotAddresses(TypeAt(params, i), values[i]) ==> Reverses(g, chain, a)
  }

  /** Maps one decoded value back under its declared type. */
  function ReverseValue(g: Godwoker, chain: Chain, typ: string, v: AbiValue): (r: Result<AbiValue>)
    ensures r.Ok? <==> forall a :: a in SlotAddresses(typ, v) ==> Reverses(g, chain, a)
    ensures r.Ok? ==> r.value == ReversedValue(g, chain, typ, v)
  {
    match v
    case AddressValue(a) =>
      if typ == "address" then
        assert SlotAddresses(typ, v) == [a];
        assert (forall b :: b in SlotAddresses(typ, v) ==> Reverses(g, chain, b)) <==> Reverses(g, chain, a);
        var res :- GetEthAddressByAllTypeShortAddress(g, chain, a);
        Ok(AddressValue(res))
      else Ok(v)
    case AddressList(addresses) =>
      if typ == "address[]" then
        assert (forall a :: a in addresses ==> Reverses(g, chain, a)) ==> ReverseList(g, chain, addresses).Ok? by {
          if forall a :: a in addresses ==> Reverses(g, chain, a) {
            ReverseListTotal(g, chain, addresses);
          }
        }
        var res :- ReverseList(g, chain, addresses);
        assert res == seq(|addresses|, j requires 0 <= j < |addresses| => EthOf(g, chain, addresses[j]));
        Ok(AddressList(res))
      else Ok(v)
    case OtherValue(_) => Ok(v)
  }

  /** Maps the decoded values back position by position. */
  function ReverseValues(g: Godwoker, chain: Chain, params: seq<AbiParam>, values: seq<AbiValue>)
    : (r: Result<seq<AbiValue>>)
    ensures r.Ok? ==> r.value == ReversedValues(g, chain, params, values)
    decreases |values|
  {
    if values == [] then Ok([])
    else
      var first :- ReverseValue(g, chain, TypeAt(params, 0), values[0]);
      var rest :- ReverseValues(g, chain, Drop(params, 1), values[1..]);
      TypeAtDropAll(params, |values|);
      assert forall i :: 1 <= i < |values| ==> values[i] == values[1..][i - 1];
      Ok([first] + rest)
  }

  /** The reverse rewrite fails exactly when some address the values carry
      does not reverse. */
  lemma {:induction false} ReverseValuesTotal(g: Godwoker, chain: Chain, params: seq<AbiParam>, values: seq<AbiValue>)
    ensures ReverseValues(g, chain, params, values).Ok? <==> AllSlotsReverse(g, chain, params, values)
    decreases |values|
  {
    if values != [] {
      TypeAtDropAll(params, |values|);
      assert forall i :: 1 <= i < |values| ==> values[i] == values[1..][i - 1];
      ReverseValuesTotal(g, chain, Drop(params, 1), values[1..]);
      var t := TypeAt(params, 0);
      if AllSlotsReverse(g, chain, params, values) {
        assert forall a :: a in SlotAddresses(t, values[0]) ==> Reverses(g, chain, a);
        assert AllSlotsReverse(g, chain, Drop(params, 1), values[1..]) by {
          forall i, a | 0 <= i < |values[1..]| && a in SlotAddresses(TypeAt(Drop(params, 1), i), values[1..][i])
            ensures Reverses(g, chain, a)
          {
            assert a in SlotAddresses(TypeAt(params, i + 1), values[i + 1]);
          }
        }
      } else {
        var i, a :| 0 <= i < |values| && a in SlotAddresses(TypeAt(params, i), values[i]) && !Reverses(g, chain, a);
        if i > 0 {
          assert a in SlotAddresses(TypeAt(Drop(params, 1), i - 1), values[1..][i - 1]);
        }
      }
    }
  }

  /** On one value whose addresses are all reversible, the reverse rewrite
      undoes the forward one. */
  lemma {:induction false} ResolvedValueReverses(g: Godwoker, chain: Chain, typ: string, v: AbiValue)
    requires forall a :: a in SlotAddresses(typ, v) ==> Reversible(g, chain, a)
    ensures forall a :: a in SlotAddresses(typ, v) ==> Resolves(g, chain, a)
    ensures forall b :: b in SlotAddresses(typ, ResolvedValue(g, chain, typ, v)) ==> Reverses(g, chain, b)
    ensures ReversedValue(g, chain, typ, ResolvedValue(g, chain, typ, v)) == v
  {
    forall a | a in SlotAddresses(typ, v)
      ensures Resolves(g, chain, a) && EthOf(g, chain, ShortOf(g, chain, a)) == a
      ensures Reverses(g, chain, ShortOf(g, chain, a))
    {
      ReversibleRoundTrip(g, chain, a);
    }
    match v
    case AddressValue(a) =>
    case AddressList(addresses) =>
      if typ == "address[]" {
        assert forall j :: 0 <= j < |addresses| ==> addresses[j] in SlotAddresses(typ, v);
        var w := ResolvedValue(g, chain, typ, v);
        assert ReversedValue(g, chain, typ, w).addresses == addresses;
      }
    case OtherValue(_) =>
  }

  /** Over reversible addresses the forward rewrite succeeds and the reverse
      rewrite of its result gives the original values back. */
  lemma {:induction false} ResolveValuesRoundTrip(g: Godwoker, chain: Chain, params: seq<AbiParam>, values: seq<AbiValue>,
                                                  c: Collected)
    requires forall i, a :: 0 <= i < |values| && a in SlotAddresses(TypeAt(params, i), values[i]) ==> Reversible(g, chain, a)
    ensures ResolveValues(g, chain, params, values, c).Ok?
    ensures ReverseValues(g, chain, params, ResolveValues(g, chain, params, values, c).value.0) == Ok(values)
  {
    var w := ResolvedValues(g, chain, params, values);
    forall i | 0 <= i < |values|
      ensures forall a :: a in SlotAddresses(TypeAt(params, i), values[i]) ==> Resolves(g, chain, a)
      ensures forall b :: b in SlotAddresses(TypeAt(params, i), w[i]) ==> Reverses(g, chain, b)
      ensures ReversedValue(g, chain, TypeAt(params, i), w[i]) == values[i]
    {
      ResolvedValueReverses(g, chain, TypeAt(params, i), values[i]);
    }
    ResolveValuesTotal(g, chain, params, values, c);
    ReverseValuesTotal(g, chain, params, w);
    assert ReversedValues(g, chain, params, w) == values;
  }

  /** `refactor_return_value_with_short_address(data, item, resolver)`: the
      return data with its address outputs mapped back to Ethereum
      addresses; untouched when the item has no address outputs. */
  function RefactorReturnValueWithShortAddress(abi: Abi, g: Godwoker, chain: Chain, returnData: string, item: AbiItem)
    : (r: Result<string>)
    ensures InterestedParams(item.outputs) == [] ==> r == Ok(returnData)
  {
    if InterestedParams(item.outputs) == [] then Ok(returnData)
    else
      var values := abi.decode(item.outputs, returnData);
      var res :- ReverseValues(g, chain, item.outputs, values);
      Ok(abi.encode(item.outputs, res))
  }

  /** For an item with address outputs, the reverse rewrite succeeds exactly
      when every address among the decoded outputs reverses, and is then the
      outputs re-encoded with each address mapped back. A return value
      carrying the short addresses of reversible addresses comes back with
      those addresses. */
  lemma {:induction false} RefactorReturnValueRestoresAddresses(abi: Abi, g: Godwoker, chain: Chain, returnData: string,
                                                                item: AbiItem)
    requires InterestedParams(item.outputs) != []
    ensures var values := abi.decode(item.outputs, returnData);
      var r := RefactorReturnValueWithShortAddress(abi, g, chain, returnData, item);
      && (r.Ok? <==> AllSlotsReverse(g, chain, item.outputs, values))
      && (r.Ok? ==> r.value == abi.encode(item.outputs, ReversedValues(g, chain, item.outputs, values)))
    ensures forall original: seq<AbiValue> ::
      (&& abi.decode(item.outputs, returnData) == ResolvedValues(g, chain, item.outputs, original)
       && (forall i, a :: 0 <= i < |original| && a in SlotAddresses(TypeAt(item.outputs, i), original[i]) ==>
             Reversible(g, chain, a))) ==>
      RefactorReturnValueWithShortAddress(abi, g, chain, returnData, item) == Ok(abi.encode(item.outputs, original))
  {
    ReverseValuesTotal(g, chain, item.outputs, abi.decode(item.outputs, returnData));
    forall original: seq<AbiValue> |
      && abi.decode(item.outputs, returnData) == ResolvedValues(g, chain, item.outputs, original)
      && (forall i, a :: 0 <= i < |original| && a in SlotAddresses(TypeAt(item.outputs, i), original[i]) ==>
            Reversible(g, chain, a))
      ensures RefactorReturnValueWithShortAddress(abi, g, chain, returnData, item) == Ok(abi.encode(item.outputs, original))
    {
      ResolveValuesRoundTrip(g, chain, item.outputs, original, Collected([], []));
    }
  }
}
