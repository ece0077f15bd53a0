/** The address resolver and transaction assembler of the `Godwoker` class:
    how an Ethereum address becomes a Godwoken short address, script hash or
    account id, how a short address is mapped back, and how a raw layer-2
    transaction is put together. The chain is seen only through the JSON-RPC
    lookups the class issues, modelled as maps; `utils.computeScriptHash` is
    an uninterpreted function supplied with the configuration. */
module GodwokerClient {
  import opened Results
  import opened JsText
  import opened Hex
  import opened Normalize
  import opened PolyArgs
  import opened L2Types

  const GW_GET_SCRIPT: string := "gw_get_script"
  const GW_GET_SCRIPT_HASH: string := "gw_get_script_hash"
  const GW_GET_ACCOUNT_ID_BY_SCRIPT_HASH: string := "gw_get_account_id_by_script_hash"
  const GW_GET_SCRIPT_HASH_BY_SHORT_ADDRESS: string := "gw_get_script_hash_by_short_address"
  const GW_GET_NONCE: string := "gw_get_nonce"
  const POLY_GET_CREATOR_ID: string := "poly_getCreatorId"
  const POLY_GET_ETH_ADDRESS_BY_GODWOKEN_SHORT_ADDRESS: string := "poly_getEthAddressByGodwokenShortAddress"

  /** A CKB script: code hash, hash type and argument text. */
  datatype Script = Script(codeHash: string, hashType: string, args: string)

  /** What the JSON-RPC lookups answer. An absent key is a null result; a
      method in `failing` rejects every call with a transport or server error.
      Account ids and nonces come back as hex quantities of naturals, so they
      are kept here as the naturals themselves. The script hashes by account
      id are keyed by integers: the send path asks for `parseInt(to_id, 16)`,
      which a sign in the text would make negative. */
  datatype Chain = Chain(
    scriptHashByShortAddress: map<string, string>,
    scriptByHash: map<string, Script>,
    accountIdByScriptHash: map<string, nat>,
    scriptHashByAccountId: map<int, string>,
    nonceByAccountId: map<nat, nat>,
    ethAddressByShortAddress: map<string, string>,
    creatorId: Option<nat>,
    failing: set<string>)

  /** `jsonRPC(method, [key], ...)` with the default "result can not be empty". */
  function Fetch<K(==), V>(chain: Chain, rpcMethod: string, m: map<K, V>, key: K): (r: Result<V>)
    ensures r.Ok? <==> rpcMethod !in chain.failing && key in m
    ensures r.Ok? ==> r.value == m[key]
    ensures rpcMethod in chain.failing ==> r == Err(RpcError(rpcMethod))
    ensures rpcMethod !in chain.failing && key !in m ==> r == Err(NoResult(rpcMethod))
  {
    if rpcMethod in chain.failing then Err(RpcError(rpcMethod))
    else if key in m then Ok(m[key])
    else Err(NoResult(rpcMethod))
  }

  /** Where the reverse lookup of an off-chain short address goes: the
      caller's `queryEthAddressByShortAddress`, or the default RPC. */
  datatype ReverseLookup = Custom(query: string -> Result<string>) | DefaultRpc

  /** The configuration a `Godwoker` holds once initialised. `creatorId` is
      `None` when none was configured (it is then fetched); `saveMapping`
      says whether a `saveEthAddressShortAddressMapping` callback was given. */
  datatype Godwoker = Godwoker(
    rollupTypeHash: string,
    lockCodeHash: string,
    lockHashType: string,
    creatorId: Option<nat>,
    defaultFromAddress: string,
    reverseLookup: ReverseLookup,
    saveMapping: bool,
    computeScriptHash: Script -> string)

  /** The layer-2 lock of an EOA: the configured lock, with the rollup type
      hash followed by the address digits as its arguments. */
  function EoaLockScript(g: Godwoker, ethAddress: string): Script
  {
    Script(g.lockCodeHash, g.lockHashType, g.rollupTypeHash + Drop(ethAddress, 2))
  }

  /** `computeScriptHashByEoaEthAddress(eth)`. */
  function ComputeScriptHashByEoaEthAddress(g: Godwoker, ethAddress: string): string
  {
    g.computeScriptHash(EoaLockScript(g, ethAddress))
  }

  /** `computeShortAddressByEoaEthAddress(eth)`: the first 20 bytes of the
      EOA lock hash, as `0x`-prefixed text. */
  function ComputeShortAddressByEoaEthAddress(g: Godwoker, ethAddress: string): (r: string)
    ensures r <= ComputeScriptHashByEoaEthAddress(g, ethAddress)
    ensures |ComputeScriptHashByEoaEthAddress(g, ethAddress)| >= 42 ==> |r| == 42
    ensures IsHexString(ComputeScriptHashByEoaEthAddress(g, ethAddress), 32) ==> IsHexString(r, 20)
  {
    var h := ComputeScriptHashByEoaEthAddress(g, ethAddress);
    assert Slice(h, 0, 42) == h[..if |h| < 42 then |h| else 42];
    Slice(h, 0, 42)
  }

  /** The lock arguments carry the address: with a 32-byte rollup type hash,
      characters 66..106 of the arguments are the address digits, which is
      where the reverse resolver reads them from. */
  lemma {:induction false} EoaLockArgsCarryEthAddress(g: Godwoker, ethAddress: string)
    requires |g.rollupTypeHash| == 66
    requires |ethAddress| == 42 && ethAddress[..2] == "0x"
    ensures "0x" + Slice(EoaLockScript(g, ethAddress).args, 66, 106) == ethAddress
  {
    var args := g.rollupTypeHash + ethAddress[2..];
    assert args[66..106] == ethAddress[2..];
    assert ethAddress == "0x" + ethAddress[2..];
  }

  /** `isShortAddressOnChain(short, callback)`: the script hash the chain
      knows for `short`, passed to the callback when it is non-empty. The
      lookup may come back empty, which means "not on chain". */
  function IsShortAddressOnChain(chain: Chain, shortAddress: string): (r: Result<Option<string>>)
    ensures GW_GET_SCRIPT_HASH_BY_SHORT_ADDRESS in chain.failing <==> r.Err?
    ensures r.Err? ==> r.error == RpcError(GW_GET_SCRIPT_HASH_BY_SHORT_ADDRESS)
    ensures r.Ok? && r.value.Some? <==>
      r.Ok? && shortAddress in chain.scriptHashByShortAddress && chain.scriptHashByShortAddress[shortAddress] != ""
    ensures r.Ok? && r.value.Some? ==> r.value.value == chain.scriptHashByShortAddress[shortAddress]
  {
    if GW_GET_SCRIPT_HASH_BY_SHORT_ADDRESS in chain.failing then Err(RpcError(GW_GET_SCRIPT_HASH_BY_SHORT_ADDRESS))
    else if shortAddress in chain.scriptHashByShortAddress && chain.scriptHashByShortAddress[shortAddress] != ""
    then Ok(Some(chain.scriptHashByShortAddress[shortAddress]))
    else Ok(None)
  }

  /** Whether `short` is known on chain, for a chain whose lookup answers. */
  predicate OnChain(chain: Chain, shortAddress: string)
  {
    shortAddress in chain.scriptHashByShortAddress && chain.scriptHashByShortAddress[shortAddress] != ""
  }

  datatype ShortAddressType = CreatorAddress | ContractAddress | EoaAddress | NotExistEoaAddress

  /** `ShortAddress`: a resolved value and how it was classified. */
  datatype ShortAddress = ShortAddress(value: string, kind: ShortAddressType)

  /** The outcome of forward resolution, with the pairs handed to the save
      callback during it. */
  datatype Resolution = Resolution(shortAddress: ShortAddress, saved: seq<AddressMappingItem>)

  /** `getShortAddressByAllTypeEthAddress(eth)`. */
  function GetShortAddressByAllTypeEthAddress(g: Godwoker, chain: Chain, ethAddress: string): (r: Result<Resolution>)
    ensures ethAddress == DEFAULT_EMPTY_ETH_ADDRESS ==>
      r == Ok(Resolution(ShortAddress(ethAddress, CreatorAddress), []))
    ensures ethAddress != DEFAULT_EMPTY_ETH_ADDRESS ==>
      (r.Err? <==> GW_GET_SCRIPT_HASH_BY_SHORT_ADDRESS in chain.failing)
    ensures r.Ok? && ethAddress != DEFAULT_EMPTY_ETH_ADDRESS && OnChain(chain, ethAddress) ==>
      r.value == Resolution(ShortAddress(ethAddress, ContractAddress), [])
    ensures r.Ok? && ethAddress != DEFAULT_EMPTY_ETH_ADDRESS && !OnChain(chain, ethAddress) ==>
      var short := ComputeShortAddressByEoaEthAddress(g, ethAddress);
      && r.value.shortAddress.value == short
      && r.value.shortAddress.kind == (if OnChain(chain, short) then EoaAddress else NotExistEoaAddress)
    ensures r.Ok? ==>
      (r.value.saved != [] <==> r.value.shortAddress.kind == NotExistEoaAddress && g.saveMapping)
    ensures r.Ok? && r.value.saved != [] ==>
      r.value.saved == [AddressMappingItem(ethAddress, r.value.shortAddress.value)]
  {
    if ethAddress == DEFAULT_EMPTY_ETH_ADDRESS then
      Ok(Resolution(ShortAddress(ethAddress, CreatorAddress), []))
    else
      var isContract :- IsShortAddressOnChain(chain, ethAddress);
      if isContract.Some? then Ok(Resolution(ShortAddress(ethAddress, ContractAddress), []))
      else
        var short := ComputeShortAddressByEoaEthAddress(g, ethAddress);
        match IsShortAddressOnChain(chain, short)
        case Err(e) => Err(e)
        case Ok(Some(_)) => Ok(Resolution(ShortAddress(short, EoaAddress), []))
        case Ok(None) =>
          var saved := if g.saveMapping then [AddressMappingItem(ethAddress, short)] else [];
          Ok(Resolution(ShortAddress(short, NotExistEoaAddress), saved))
  }

  /** The zero address is classified without looking at the chain at all. */
  lemma {:induction false} ZeroAddressNeedsNoLookup(g: Godwoker, chain1: Chain, chain2: Chain)
    ensures GetShortAddressByAllTypeEthAddress(g, chain1, DEFAULT_EMPTY_ETH_ADDRESS)
         == GetShortAddressByAllTypeEthAddress(g, chain2, DEFAULT_EMPTY_ETH_ADDRESS)
  {
  }

  /** `checkEthAddressIsEoa(eth, short)`: `eth` re-derives `short`, ignoring case. */
  function CheckEthAddressIsEoa(g: Godwoker, ethAddress: string, targetShortAddress: string): (r: bool)
    ensures r <==> SameIgnoringCase(ComputeShortAddressByEoaEthAddress(g, ethAddress), targetShortAddress)
  {
    ghost var a := ComputeShortAddressByEoaEthAddress(g, ethAddress);
    assert SameIgnoringCase(a, targetShortAddress) ==> ToLower(a) == ToLower(targetShortAddress);
    assert ToLower(a) == ToLower(targetShortAddress) && |a| == |targetShortAddress| ==>
      forall i :: 0 <= i < |a| ==> LowerChar(a[i]) == ToLower(a)[i] == ToLower(targetShortAddress)[i];
    ToLower(ComputeShortAddressByEoaEthAddress(g, ethAddress)) == ToLower(targetShortAddress)
  }

  lemma {:induction false} ToLowerTwice(s: string)
    ensures ToLower(ToLower(s)) == ToLower(s)
  {
  }

  /** `checkEthAddressIsEoa` accepts an address's own short address, and
      its answer does not depend on the case of the target. */
  lemma {:induction false} CheckEthAddressIsEoaIgnoresCase(g: Godwoker, ethAddress: string, target: string)
    ensures CheckEthAddressIsEoa(g, ethAddress, ComputeShortAddressByEoaEthAddress(g, ethAddress))
    ensures CheckEthAddressIsEoa(g, ethAddress, ToLower(target)) == CheckEthAddressIsEoa(g, ethAddress, target)
  {
    ToLowerTwice(target);
  }

  /** The candidate Ethereum address for an off-chain short address. */
  function QueryEthAddress(g: Godwoker, chain: Chain, shortAddress: string): Result<string>
  {
    match g.reverseLookup
    case Custom(query) => query(shortAddress)
    case DefaultRpc =>
      Fetch(chain, POLY_GET_ETH_ADDRESS_BY_GODWOKEN_SHORT_ADDRESS, chain.ethAddressByShortAddress, shortAddress)
  }

  /** `getEthAddressByAllTypeShortAddress(short)`. */
  function GetEthAddressByAllTypeShortAddress(g: Godwoker, chain: Chain, shortAddress: string): (r: Result<string>)
    ensures shortAddress == DEFAULT_EMPTY_ETH_ADDRESS ==> r == Ok(shortAddress)
    ensures shortAddress != DEFAULT_EMPTY_ETH_ADDRESS && GW_GET_SCRIPT_HASH_BY_SHORT_ADDRESS in chain.failing ==>
      r == Err(RpcError(GW_GET_SCRIPT_HASH_BY_SHORT_ADDRESS))
    ensures (&& r.Ok? && shortAddress != DEFAULT_EMPTY_ETH_ADDRESS && OnChain(chain, shortAddress)
             && chain.scriptHashByShortAddress[shortAddress] in chain.scriptByHash) ==>
      var script := chain.scriptByHash[chain.scriptHashByShortAddress[shortAddress]];
      r.value == if script.codeHash == g.lockCodeHash then "0x" + Slice(script.args, 66, 106) else shortAddress
    ensures (&& shortAddress != DEFAULT_EMPTY_ETH_ADDRESS
             && GW_GET_SCRIPT_HASH_BY_SHORT_ADDRESS !in chain.failing
             && !OnChain(chain, shortAddress)) ==>
      && (r.Ok? <==> QueryEthAddress(g, chain, shortAddress).Ok?
                     && CheckEthAddressIsEoa(g, QueryEthAddress(g, chain, shortAddress).value, shortAddress))
      && (r.Ok? ==> r.value == QueryEthAddress(g, chain, shortAddress).value)
      && (QueryEthAddress(g, chain, shortAddress).Ok? && r.Err? ==> r.error == AddressMismatch)
  {
    if shortAddress == DEFAULT_EMPTY_ETH_ADDRESS then Ok(shortAddress)
    else
      var onChain :- IsShortAddressOnChain(chain, shortAddress);
      if onChain.Some? then
        match Fetch(chain, GW_GET_SCRIPT_HASH_BY_SHORT_ADDRESS, chain.scriptHashByShortAddress, shortAddress)
        case Err(e) => Err(e)
        case Ok(scriptHash) =>
          var script :- Fetch(chain, GW_GET_SCRIPT, chain.scriptByHash, scriptHash);
          if script.codeHash == g.lockCodeHash then Ok("0x" + Slice(script.args, 66, 106))
          else Ok(shortAddress)
      else
        var ethAddress :- QueryEthAddress(g, chain, shortAddress);
        if CheckEthAddressIsEoa(g, ethAddress, shortAddress) then Ok(ethAddress)
        else Err(AddressMismatch)
  }

  /** The chain agrees with the configuration about `ethAddress`'s short
      address: it is stored with the EOA lock of `ethAddress` when on chain,
      and the reverse lookup names `ethAddress` when not. */
  predicate KnowsEoa(g: Godwoker, chain: Chain, ethAddress: string)
  {
    var short := ComputeShortAddressByEoaEthAddress(g, ethAddress);
    && GW_GET_SCRIPT_HASH_BY_SHORT_ADDRESS !in chain.failing
    && (OnChain(chain, short) ==>
          && GW_GET_SCRIPT !in chain.failing
          && chain.scriptHashByShortAddress[short] in chain.scriptByHash
          && chain.scriptByHash[chain.scriptHashByShortAddress[short]] == EoaLockScript(g, ethAddress))
    && (!OnChain(chain, short) ==> QueryEthAddress(g, chain, short) == Ok(ethAddress))
  }

  /** Resolving an EOA forward and then back returns the address, both for
      an account that exists and for one that does not exist yet. */
  lemma {:induction false} EoaRoundTrip(g: Godwoker, chain: Chain, ethAddress: string)
    requires |g.rollupTypeHash| == 66
    requires |ethAddress| == 42 && ethAddress[..2] == "0x"
    requires ethAddress != DEFAULT_EMPTY_ETH_ADDRESS && !OnChain(chain, ethAddress)
    requires ComputeShortAddressByEoaEthAddress(g, ethAddress) != DEFAULT_EMPTY_ETH_ADDRESS
    requires KnowsEoa(g, chain, ethAddress)
    ensures GetShortAddressByAllTypeEthAddress(g, chain, ethAddress).Ok?
    ensures GetEthAddressByAllTypeShortAddress(g, chain,
      GetShortAddressByAllTypeEthAddress(g, chain, ethAddress).value.shortAddress.value) == Ok(ethAddress)
  {
    var short := ComputeShortAddressByEoaEthAddress(g, ethAddress);
    if OnChain(chain, short) {
      EoaLockArgsCarryEthAddress(g, ethAddress);
    } else {
      CheckEthAddressIsEoaIgnoresCase(g, ethAddress, short);
    }
  }

  /** A short address that is on chain under a non-EOA script is a contract:
      both directions return it unchanged. */
  lemma {:induction false} ContractRoundTrip(g: Godwoker, chain: Chain, shortAddress: string)
    requires shortAddress != DEFAULT_EMPTY_ETH_ADDRESS && OnChain(chain, shortAddress)
    requires GW_GET_SCRIPT_HASH_BY_SHORT_ADDRESS !in chain.failing && GW_GET_SCRIPT !in chain.failing
    requires chain.scriptHashByShortAddress[shortAddress] in chain.scriptByHash
    requires chain.scriptByHash[chain.scriptHashByShortAddress[shortAddress]].codeHash != g.lockCodeHash
    ensures GetEthAddressByAllTypeShortAddress(g, chain, shortAddress) == Ok(shortAddress)
    ensures GetShortAddressByAllTypeEthAddress(g, chain, shortAddress)
         == Ok(Resolution(ShortAddress(shortAddress, ContractAddress), []))
  {
  }

  /** The addresses forward and reverse resolution are inverse on: known
      EOAs, and contracts on chain under a non-EOA script. */
  predicate Reversible(g: Godwoker, chain: Chain, a: string)
  {
    || (&& |g.rollupTypeHash| == 66
        && |a| == 42 && a[..2] == "0x"
        && a != DEFAULT_EMPTY_ETH_ADDRESS && !OnChain(chain, a)
        && ComputeShortAddressByEoaEthAddress(g, a) != DEFAULT_EMPTY_ETH_ADDRESS
        && KnowsEoa(g, chain, a))
    || (&& a != DEFAULT_EMPTY_ETH_ADDRESS && OnChain(chain, a)
        && GW_GET_SCRIPT_HASH_BY_SHORT_ADDRESS !in chain.failing && GW_GET_SCRIPT !in chain.failing
        && chain.scriptHashByShortAddress[a] in chain.scriptByHash
        && chain.scriptByHash[chain.scriptHashByShortAddress[a]].codeHash != g.lockCodeHash)
  }

  lemma {:induction false} ReversibleRoundTrip(g: Godwoker, chain: Chain, a: string)
    requires Reversible(g, chain, a)
    ensures GetShortAddressByAllTypeEthAddress(g, chain, a).Ok?
    ensures GetEthAddressByAllTypeShortAddress(g, chain,
      GetShortAddressByAllTypeEthAddress(g, chain, a).value.shortAddress.value) == Ok(a)
  {
    if a != DEFAULT_EMPTY_ETH_ADDRESS && OnChain(chain, a) {
      ContractRoundTrip(g, chain, a);
    } else {
      EoaRoundTrip(g, chain, a);
    }
  }

  /** `this.creator_id || await this.getPolyjuiceCreatorAccountId()`. */
  function CreatorId(g: Godwoker, chain: Chain): (r: Result<nat>)
    ensures g.creatorId.Some? ==> r == Ok(g.creatorId.value)
  {
    if g.creatorId.Some? then Ok(g.creatorId.value)
    else if POLY_GET_CREATOR_ID in chain.failing then Err(RpcError(POLY_GET_CREATOR_ID))
    else if chain.creatorId.Some? then Ok(chain.creatorId.value)
    else Err(NoResult(POLY_GET_CREATOR_ID))
  }

  /** The 20 zero bytes of the meta-contract address. */
  const ZERO_ADDRESS_BYTES: seq<Byte> := [0, 0, 0, 0, 0, 0, 0, 0, 0, 0, 0, 0, 0, 0, 0, 0, 0, 0, 0, 0]

  /** `allTypeEthAddressToScriptHash(address)`. */
  function AllTypeEthAddressToScriptHash(g: Godwoker, chain: Chain, address: string): (r: Result<string>)
    ensures |HexBytes(Drop(address, 2))| != 20 ==> r == Err(InvalidEthAddressLength(|HexBytes(Drop(address, 2))|))
    ensures HexBytes(Drop(address, 2)) == ZERO_ADDRESS_BYTES ==>
      r == if CreatorId(g, chain).Err? then Err(CreatorId(g, chain).error)
           else Fetch(chain, GW_GET_SCRIPT_HASH, chain.scriptHashByAccountId, CreatorId(g, chain).value)
    ensures |HexBytes(Drop(address, 2))| == 20 && HexBytes(Drop(address, 2)) != ZERO_ADDRESS_BYTES ==>
      && (r.Err? <==> GW_GET_SCRIPT_HASH_BY_SHORT_ADDRESS in chain.failing)
      && (r.Ok? ==> r.value == if OnChain(chain, address) then chain.scriptHashByShortAddress[address]
                               else ComputeScriptHashByEoaEthAddress(g, address))
  {
    var bytes := HexBytes(Drop(address, 2));
    if |bytes| != 20 then Err(InvalidEthAddressLength(|bytes|))
    else if bytes == ZERO_ADDRESS_BYTES then
      var toId :- CreatorId(g, chain);
      Fetch(chain, GW_GET_SCRIPT_HASH, chain.scriptHashByAccountId, toId)
    else
      var scriptHash :- IsShortAddressOnChain(chain, address);
      if scriptHash.Some? then Ok(scriptHash.value)
      else Ok(ComputeScriptHashByEoaEthAddress(g, address))
  }

  /** The script hash a non-zero address stands for: the one the chain
      records for it, or else the one derived from it as an EOA. */
  function AccountScriptHash(g: Godwoker, chain: Chain, address: string): string
  {
    if OnChain(chain, address) then chain.scriptHashByShortAddress[address]
    else ComputeScriptHashByEoaEthAddress(g, address)
  }

  /** `allTypeEthAddressToAccountId(address)`. */
  function AllTypeEthAddressToAccountId(g: Godwoker, chain: Chain, address: string): (r: Result<nat>)
    ensures |HexBytes(Drop(address, 2))| != 20 ==> r == Err(InvalidEthAddressLength(|HexBytes(Drop(address, 2))|))
    ensures HexBytes(Drop(address, 2)) == ZERO_ADDRESS_BYTES ==> r == CreatorId(g, chain)
    ensures (&& |HexBytes(Drop(address, 2))| == 20 && HexBytes(Drop(address, 2)) != ZERO_ADDRESS_BYTES
             && GW_GET_SCRIPT_HASH_BY_SHORT_ADDRESS in chain.failing) ==>
      r == Err(RpcError(GW_GET_SCRIPT_HASH_BY_SHORT_ADDRESS))
    ensures (&& |HexBytes(Drop(address, 2))| == 20 && HexBytes(Drop(address, 2)) != ZERO_ADDRESS_BYTES
             && GW_GET_SCRIPT_HASH_BY_SHORT_ADDRESS !in chain.failing) ==>
      && (r.Ok? <==> && GW_GET_ACCOUNT_ID_BY_SCRIPT_HASH !in chain.failing
                     && AccountScriptHash(g, chain, address) in chain.accountIdByScriptHash)
      && (r.Ok? ==> r.value == chain.accountIdByScriptHash[AccountScriptHash(g, chain, address)])
  {
    var bytes := HexBytes(Drop(address, 2));
    if |bytes| != 20 then Err(InvalidEthAddressLength(|bytes|))
    else if bytes == ZERO_ADDRESS_BYTES then CreatorId(g, chain)
    else
      var scriptHash :- IsShortAddressOnChain(chain, address);
      if scriptHash.Some? then Fetch(chain, GW_GET_ACCOUNT_ID_BY_SCRIPT_HASH, chain.accountIdByScriptHash, scriptHash.value)
      else Fetch(chain, GW_GET_ACCOUNT_ID_BY_SCRIPT_HASH, chain.accountIdByScriptHash,
                 ComputeScriptHashByEoaEthAddress(g, address))
  }

  /** For every non-zero address the account id is the account of the script
      hash `allTypeEthAddressToScriptHash` gives. */
  lemma {:induction false} AccountIdIsAccountOfScriptHash(g: Godwoker, chain: Chain, address: string)
    requires HexBytes(Drop(address, 2)) != ZERO_ADDRESS_BYTES
    ensures var h := AllTypeEthAddressToScriptHash(g, chain, address);
      AllTypeEthAddressToAccountId(g, chain, address)
        == if h.Err? then Err(h.error)
           else Fetch(chain, GW_GET_ACCOUNT_ID_BY_SCRIPT_HASH, chain.accountIdByScriptHash, h.value)
  {
  }

  /** `getAccountIdByEoaEthAddress(eth)`. */
  function GetAccountIdByEoaEthAddress(g: Godwoker, chain: Chain, ethAddress: string): (r: Result<nat>)
    ensures r.Ok? <==> && GW_GET_ACCOUNT_ID_BY_SCRIPT_HASH !in chain.failing
                       && g.computeScriptHash(EoaLockScript(g, ethAddress)) in chain.accountIdByScriptHash
    ensures r.Ok? ==> r.value == chain.accountIdByScriptHash[g.computeScriptHash(EoaLockScript(g, ethAddress))]
  {
    Fetch(chain, GW_GET_ACCOUNT_ID_BY_SCRIPT_HASH, chain.accountIdByScriptHash,
          ComputeScriptHashByEoaEthAddress(g, ethAddress))
  }

  /** `getNonce(accountId)`. */
  function GetNonce(chain: Chain, accountId: nat): (r: Result<nat>)
    ensures r.Ok? <==> GW_GET_NONCE !in chain.failing && accountId in chain.nonceByAccountId
    ensures r.Ok? ==> r.value == chain.nonceByAccountId[accountId]
    ensures GW_GET_NONCE in chain.failing ==> r == Err(RpcError(GW_GET_NONCE))
  {
    Fetch(chain, GW_GET_NONCE, chain.nonceByAccountId, accountId)
  }

  /** For an EOA the chain does not know by its short address, the general
      account-id lookup and the EOA one agree. */
  lemma {:induction false} EoaAccountIdAgrees(g: Godwoker, chain: Chain, address: string)
    requires |HexBytes(Drop(address, 2))| == 20 && HexBytes(Drop(address, 2)) != ZERO_ADDRESS_BYTES
    requires GW_GET_SCRIPT_HASH_BY_SHORT_ADDRESS !in chain.failing && !OnChain(chain, address)
    ensures AllTypeEthAddressToAccountId(g, chain, address) == GetAccountIdByEoaEthAddress(g, chain, address)
  {
  }

  /** A natural as a hex quantity, `"0x" + BigInt(n).toString(16)`. */
  function HexQuantity(n: nat): (r: string)
    ensures ParseBigInt(r) == Ok(n)
  {
    ParseBigIntOfHexDigits(n);
    "0x" + HexDigits(n)
  }

  /** The transactions the assembler can complete: the sender and receiver
      accounts and the sender's nonce resolve, and the arguments encode. */
  predicate Assemblable(g: Godwoker, chain: Chain, tx: EthTransaction)
  {
    && GetAccountIdByEoaEthAddress(g, chain, tx.from).Ok?
    && AllTypeEthAddressToAccountId(g, chain, tx.to).Ok?
    && GetNonce(chain, GetAccountIdByEoaEthAddress(g, chain, tx.from).value).Ok?
    && Encodable(tx)
  }

  /** `assembleRawL2Transaction(tx)`: sender account, receiver account,
      sender nonce and encoded arguments, looked up and computed in that
      order; the first failure is the result. */
  function AssembleRawL2Transaction(g: Godwoker, chain: Chain, tx: EthTransaction): (r: Result<RawL2Transaction>)
    ensures GetAccountIdByEoaEthAddress(g, chain, tx.from).Err? ==> r == Err(GetAccountIdByEoaEthAddress(g, chain, tx.from).error)
    ensures r.Ok? <==> Assemblable(g, chain, tx)
    ensures r.Ok? ==>
      var from := GetAccountIdByEoaEthAddress(g, chain, tx.from).value;
      && ParseBigInt(r.value.fromId) == Ok(from)
      && ParseBigInt(r.value.toId) == Ok(AllTypeEthAddressToAccountId(g, chain, tx.to).value)
      && ParseBigInt(r.value.nonce) == Ok(chain.nonceByAccountId[from])
      && r.value.args == EncodeArgs(tx).value
  {
    var from :- GetAccountIdByEoaEthAddress(g, chain, tx.from);
    var to :- AllTypeEthAddressToAccountId(g, chain, tx.to);
    var nonce :- GetNonce(chain, from);
    var args :- EncodeArgs(tx);
    Ok(RawL2Transaction(HexQuantity(from), HexQuantity(to), HexQuantity(nonce), args))
  }
}
