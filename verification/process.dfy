/** The process orchestrator of process.ts: precondition checks, the common
    prefix (default sender, forward address rewrite, normalisation,
    assembly) and the three modes. Signing-message hashing, the molecule
    serialiser of the signed transaction and `poly_executeRawL2Transaction`
    are oracle functions of `Services`. */
module Process {
  import opened Results
  import opened JsText
  import opened Hex
  import opened Normalize
  import opened L2Types
  import opened GodwokerClient
  import opened AbiTranscoder

  /** `ProcessTransactionType`, with any other tag a caller might pass. */
  datatype ProcessTransactionType = Send | Call | EstimateGas | OtherType(tag: int)

  datatype SigningMessageType = WithPrefix | NoPrefix

  /** `Process`: the mode and its optional fields. `executeEstimateGasMethod`
      matters only by its presence. */
  datatype ProcessRequest = ProcessRequest(
    kind: ProcessTransactionType,
    signingMethod: Option<string -> Result<string>>,
    executeEstimateGasMethod: bool,
    signingMessageType: Option<SigningMessageType>)

  /** `buildProcess` returns hex text (send, call) or a raw transaction (estimateGas). */
  datatype ProcessOutput = TextOutput(text: string) | RawOutput(rawTx: RawL2Transaction)

  datatype Services = Services(
    /** `generateTransactionMessageToSign(tx, sender, receiver, withPrefix)`. */
    messageToSign: (RawL2Transaction, string, string, bool) -> string,
    /** `serializeL2TransactionWithAddressMapping(tx)`, which may throw on a
        malformed field. */
    serializeL2: L2TransactionWithAddressMapping -> Result<string>,
    /** `poly_executeRawL2Transaction(tx)`, reduced to its `return_data`. */
    execute: RawL2TransactionWithAddressMapping -> Result<string>)

  /** The guards at the start of `buildProcess`, in order. */
  function CheckPreconditions(tx: EthTransaction, p: ProcessRequest): (r: Option<Error>)
    ensures r == Some(SendWithoutFrom) <==> p.kind == Send && tx.from == ""
    ensures r == Some(SendWithoutSigningMethod) <==> p.kind == Send && tx.from != "" && p.signingMethod.None?
    ensures r == Some(EstimateGasWithoutMethod) <==> p.kind == EstimateGas && !p.executeEstimateGasMethod
    ensures r.None? <==>
      (p.kind == Send ==> tx.from != "" && p.signingMethod.Some?) &&
      (p.kind == EstimateGas ==> p.executeEstimateGasMethod)
  {
    if tx.from == "" && p.kind == Send then Some(SendWithoutFrom)
    else if p.signingMethod.None? && p.kind == Send then Some(SendWithoutSigningMethod)
    else if p.kind == EstimateGas && !p.executeEstimateGasMethod then Some(EstimateGasWithoutMethod)
    else None
  }

  /** The sender `buildProcess` signs for: `tx.from || godwoker.default_from_address`. */
  function Sender(g: Godwoker, tx: EthTransaction): string
  {
    if tx.from != "" then tx.from else g.defaultFromAddress
  }

  /** The transaction `buildProcess` hands to `normalizeEthTransaction`:
      the rewritten data, and no `gasLimit`. */
  function ToNormalize(g: Godwoker, tx: EthTransaction, data: string): InformalEthTransaction
  {
    InformalEthTransaction(
      Some(Sender(g, tx)),
      Some(tx.to),
      if tx.gas.Some? then Some(HexText(tx.gas.value)) else None,
      None,
      if tx.gasPrice.Some? then Some(HexText(tx.gasPrice.value)) else None,
      Some(HexText(tx.value)),
      Some(data))
  }

  /** What the common prefix produces. */
  datatype Prepared = Prepared(refactored: Refactored, normalized: EthTransaction, rawTx: RawL2Transaction)

  /** The common prefix of `buildProcess`: default sender, forward rewrite, normalisation, assembly. */
  function Prepare(abi: Abi, g: Godwoker, chain: Chain, tx: EthTransaction): Result<Prepared>
  {
    var refactored :- RefactorDataWithShortAddress(abi, g, chain, tx.data);
    var t :- NormalizeEthTransaction(ToNormalize(g, tx, refactored.data));
    var rawTx :- AssembleRawL2Transaction(g, chain, t);
    Ok(Prepared(refactored, t, rawTx))
  }

  /** The requests whose common prefix succeeds: the data can be rewritten,
      the transaction handed to the normaliser is accepted, and the
      assembler can complete the normalised transaction. */
  predicate Preparable(abi: Abi, g: Godwoker, chain: Chain, tx: EthTransaction)
  {
    var refactored := RefactorDataWithShortAddress(abi, g, chain, tx.data);
    && refactored.Ok?
    && Normalizable(ToNormalize(g, tx, refactored.value.data))
    && Assemblable(g, chain, NormalizeEthTransaction(ToNormalize(g, tx, refactored.value.data)).value)
  }

  /** The prefix succeeds exactly for preparable requests. A successful
      prefix signs for the default sender when none is given, rewrites the
      data through the ABI, and carries the PolyJuice arguments of the
      normalised transaction. */
  lemma {:induction false} PrepareSteps(abi: Abi, g: Godwoker, chain: Chain, tx: EthTransaction)
    ensures Prepare(abi, g, chain, tx).Ok? <==> Preparable(abi, g, chain, tx)
    ensures Preparable(abi, g, chain, tx) ==>
      var prep := Prepare(abi, g, chain, tx).value;
      && prep.normalized.from == Sender(g, tx)
      && RefactorDataWithShortAddress(abi, g, chain, tx.data) == Ok(prep.refactored)
      && AssembleRawL2Transaction(g, chain, prep.normalized) == Ok(prep.rawTx)
      && prep.rawTx.args == PolyArgs.EncodeArgs(prep.normalized).value
  {
    if Preparable(abi, g, chain, tx) {
      var refactored := RefactorDataWithShortAddress(abi, g, chain, tx.data).value;
      var t := NormalizeEthTransaction(ToNormalize(g, tx, refactored.data)).value;
      assert Prepare(abi, g, chain, tx) == Ok(Prepared(refactored, t, AssembleRawL2Transaction(g, chain, t).value));
    }
  }

  /** `buildSerializeAddressMappingAbiItem(abi, data)`: the serialised ABI
      item when it has address inputs, the empty marker otherwise. */
  function BuildSerializeAddressMappingAbiItem(abi: Abi, data: string): (r: string)
    ensures abi.interestedItem(data).None? ==> r == EMPTY_ABI_ITEM_SERIALIZE_STR
    ensures abi.interestedItem(data).Some? ==>
      r == if InterestedParams(abi.interestedItem(data).value.inputs) == [] then EMPTY_ABI_ITEM_SERIALIZE_STR
           else abi.serialize(abi.interestedItem(data).value)
  {
    match abi.interestedItem(data)
    case None => EMPTY_ABI_ITEM_SERIALIZE_STR
    case Some(item) =>
      if InterestedParams(item.inputs) == [] then EMPTY_ABI_ITEM_SERIALIZE_STR
      else abi.serialize(item)
  }

  /** An ABI whose item lookup depends only on the selector: the `0x` and
      the first four bytes of the data. */
  ghost predicate SelectorBased(abi: Abi)
  {
    forall d1, d2 :: Slice(d1, 0, 10) == Slice(d2, 0, 10) ==> abi.interestedItem(d1) == abi.interestedItem(d2)
  }

  /** The send branch attaches the sidecar built from the rewritten data.
      The rewrite keeps the selector, so for a selector-based lookup this is
      the sidecar of the item the original data matches. */
  lemma {:induction false} SidecarOfRewrittenData(abi: Abi, g: Godwoker, chain: Chain, data: string)
    requires SelectorBased(abi)
    requires abi.interestedItem(data).Some? ==> |data| >= 10
    requires RefactorDataWithShortAddress(abi, g, chain, data).Ok?
    ensures BuildSerializeAddressMappingAbiItem(abi, RefactorDataWithShortAddress(abi, g, chain, data).value.data)
         == BuildSerializeAddressMappingAbiItem(abi, data)
  {
    var rewritten := RefactorDataWithShortAddress(abi, g, chain, data).value.data;
    assert Slice(rewritten, 0, 10) == Slice(data, 0, 10);
  }

  /** The `send` branch of `buildProcess`. */
  function SendSuffix(abi: Abi, g: Godwoker, chain: Chain, services: Services, p: ProcessRequest, prep: Prepared)
    : (r: Result<ProcessOutput>)
    requires p.signingMethod.Some?
    ensures r.Ok? ==> r.value.TextOutput?
  {
    var messageType := if p.signingMessageType.Some? then p.signingMessageType.value else WithPrefix;
    var senderScriptHash := ComputeScriptHashByEoaEthAddress(g, prep.normalized.from);
    match ParseIntHex(prep.rawTx.toId)
    case None => Err(RangeError)
    case Some(toId) =>
      var receiverScriptHash :- Fetch(chain, GW_GET_SCRIPT_HASH, chain.scriptHashByAccountId, toId);
      var message := services.messageToSign(prep.rawTx, senderScriptHash, receiverScriptHash, messageType == WithPrefix);
      var signed :- p.signingMethod.value(message);
      var signature := PackSignature(signed);
      var abiItem := BuildSerializeAddressMappingAbiItem(abi, prep.refactored.data);
      var polyL2Tx := BuildL2TransactionWithAddressMapping(
        L2Transaction(prep.rawTx, signature), prep.refactored.mapping, Some(abiItem));
      var serialized :- services.serializeL2(polyL2Tx);
      Ok(TextOutput(serialized))
  }

  /** The `call` branch of `buildProcess`. The ABI item for the return value is
      looked up from the original data, not the rewritten one. */
  function CallSuffix(abi: Abi, g: Godwoker, chain: Chain, services: Services, tx: EthTransaction, prep: Prepared)
    : (r: Result<ProcessOutput>)
    ensures r.Ok? ==> r.value.TextOutput?
  {
    var abiItem := BuildSerializeAddressMappingAbiItem(abi, prep.refactored.data);
    var polyRawL2Tx := BuildRawL2TransactionWithAddressMapping(prep.rawTx, prep.refactored.mapping, Some(abiItem));
    var returnData :- services.execute(polyRawL2Tx);
    match abi.interestedItem(tx.data)
    case None => Ok(TextOutput(returnData))
    case Some(item) =>
      var data :- RefactorReturnValueWithShortAddress(abi, g, chain, returnData, item);
      Ok(TextOutput(data))
  }

  /** The mode switch of `buildProcess`, given the outcome of the common
      prefix. A prefix failure is the result in every mode, and an unknown
      mode is reported only after the prefix succeeded. */
  function Dispatch(abi: Abi, g: Godwoker, chain: Chain, services: Services, tx: EthTransaction, p: ProcessRequest,
                    prepared: Result<Prepared>): (r: Result<ProcessOutput>)
    requires p.kind == Send ==> p.signingMethod.Some?
    ensures prepared.Err? ==> r == Err(prepared.error)
    ensures prepared.Ok? && p.kind == EstimateGas ==> r == Ok(RawOutput(prepared.value.rawTx))
    ensures prepared.Ok? && p.kind.OtherType? ==> r == Err(UnknownProcessType)
    ensures r.Ok? && p.kind != EstimateGas ==> r.value.TextOutput?
  {
    match prepared
    case Err(e) => Err(e)
    case Ok(prep) =>
      match p.kind
      case Send => SendSuffix(abi, g, chain, services, p, prep)
      case Call => CallSuffix(abi, g, chain, services, tx, prep)
      case EstimateGas => Ok(RawOutput(prep.rawTx))
      case OtherType(_) => Err(UnknownProcessType)
  }

  /** `buildProcess(abi, godwoker, tx, process)`: the guards, then the common
      prefix, then the mode. */
  function BuildProcess(abi: Abi, g: Godwoker, chain: Chain, services: Services, tx: EthTransaction, p: ProcessRequest)
    : (r: Result<ProcessOutput>)
    ensures CheckPreconditions(tx, p).Some? ==> r == Err(CheckPreconditions(tx, p).value)
    ensures CheckPreconditions(tx, p).None? ==> r == Dispatch(abi, g, chain, services, tx, p, Prepare(abi, g, chain, tx))
    ensures p.kind.OtherType? ==> r.Err?
    ensures r.Ok? && p.kind != EstimateGas ==> r.value.TextOutput?
  {
    if CheckPreconditions(tx, p).Some? then Err(CheckPreconditions(tx, p).value)
    else Dispatch(abi, g, chain, services, tx, p, Prepare(abi, g, chain, tx))
  }

  /** A send request without a sender or without a signing method fails
      before any lookup: the chain and the oracles play no part. */
  lemma {:induction false} SendPreconditionsNeedNoLookup(abi: Abi, g: Godwoker, chain1: Chain, chain2: Chain,
                                      services1: Services, services2: Services, tx: EthTransaction, p: ProcessRequest)
    requires p.kind == Send && (tx.from == "" || p.signingMethod.None?)
    ensures BuildProcess(abi, g, chain1, services1, tx, p) == BuildProcess(abi, g, chain2, services2, tx, p)
    ensures BuildProcess(abi, g, chain1, services1, tx, p).Err?
  {
  }

  /** An absent signing-message type signs with the prefix. */
  lemma {:induction false} SigningTypeDefaultsToPrefix(abi: Abi, g: Godwoker, chain: Chain, services: Services, signer: string -> Result<string>,
                                    estimate: bool, prep: Prepared)
    ensures SendSuffix(abi, g, chain, services, ProcessRequest(Send, Some(signer), estimate, None), prep)
         == SendSuffix(abi, g, chain, services, ProcessRequest(Send, Some(signer), estimate, Some(WithPrefix)), prep)
  {
  }

  /** A raw transaction's id as written by the assembler parses back. */
  lemma {:induction false} ParseIntHexOfHexQuantity(n: nat)
    ensures ParseIntHex(HexQuantity(n)) == Some(n)
  {
    var s := HexQuantity(n);
    var d := HexDigits(n);
    assert s[2..] == d;
    assert LeadingHexDigits(d) == d by {
      LeadingOfAllHex(d);
    }
    HexValueOfHexDigits(n);
  }

  lemma {:induction false} LeadingOfAllHex(d: string)
    requires AllHexDigits(d)
    ensures LeadingHexDigits(d) == d
    decreases |d|
  {
    if d != [] {
      LeadingOfAllHex(d[1..]);
    }
  }

  /** The receiver id the assembler writes parses back, through the
      `parseInt(to_id, 16)` in the `send` branch, to the account id it resolved. */
  lemma {:induction false} AssembledReceiverParses(g: Godwoker, chain: Chain, t: EthTransaction)
    requires Assemblable(g, chain, t)
    ensures AllTypeEthAddressToAccountId(g, chain, t.to).Ok?
    ensures ParseIntHex(AssembleRawL2Transaction(g, chain, t).value.toId)
         == Some(AllTypeEthAddressToAccountId(g, chain, t.to).value)
  {
    var to := AllTypeEthAddressToAccountId(g, chain, t.to).value;
    assert AssembleRawL2Transaction(g, chain, t).value.toId == HexQuantity(to);
    ParseIntHexOfHexQuantity(to);
  }

  /** A successful send is the serialised, signed transaction: the signing
      callback sees the message for the assembled transaction, the sender's
      lock hash and the receiver's script hash and accepts it, its signature
      goes through `packSignature`, and the address mapping and ABI sidecar
      are attached before serialisation. */
  lemma {:induction false} SendOutput(abi: Abi, g: Godwoker, chain: Chain, services: Services, p: ProcessRequest, prep: Prepared)
    requires p.signingMethod.Some?
    ensures SendSuffix(abi, g, chain, services, p, prep).Ok? ==> ParseIntHex(prep.rawTx.toId).Some?
    ensures SendSuffix(abi, g, chain, services, p, prep).Ok? ==>
      var to := ParseIntHex(prep.rawTx.toId).value;
      && to in chain.scriptHashByAccountId
      && var message := services.messageToSign(prep.rawTx,
           ComputeScriptHashByEoaEthAddress(g, prep.normalized.from),
           chain.scriptHashByAccountId[to],
           p.signingMessageType != Some(NoPrefix));
         var signed := p.signingMethod.value(message);
         && signed.Ok?
         && var l2 := L2TransactionWithAddressMapping(
              L2Transaction(prep.rawTx, PackSignature(signed.value)),
              MappingOf(prep.refactored.mapping),
              Sidecar(Some(BuildSerializeAddressMappingAbiItem(abi, prep.refactored.data))));
            && services.serializeL2(l2).Ok?
            && SendSuffix(abi, g, chain, services, p, prep).value == TextOutput(services.serializeL2(l2).value)
  {
  }

  /** A signing callback that rejects (a user declining to sign) fails the
      send with its error once the receiver's script hash is known, and with
      the lookup error before that. */
  lemma {:induction false} SignerRejectionFailsSend(abi: Abi, g: Godwoker, chain: Chain, services: Services,
                                                    p: ProcessRequest, prep: Prepared, e: Error)
    requires p.signingMethod.Some?
    requires forall m :: p.signingMethod.value(m) == Err(e)
    ensures SendSuffix(abi, g, chain, services, p, prep).Err?
    ensures (&& ParseIntHex(prep.rawTx.toId).Some?
             && Fetch(chain, GW_GET_SCRIPT_HASH, chain.scriptHashByAccountId, ParseIntHex(prep.rawTx.toId).value).Ok?) ==>
      SendSuffix(abi, g, chain, services, p, prep) == Err(e)
  {
  }

  /** A call passes no precondition check and goes to the call branch once
      the prefix succeeds. */
  lemma {:induction false} CallDispatch(abi: Abi, g: Godwoker, chain: Chain, services: Services,
                                        tx: EthTransaction, p: ProcessRequest)
    requires p.kind == Call
    ensures Prepare(abi, g, chain, tx).Ok? ==>
      BuildProcess(abi, g, chain, services, tx, p) == CallSuffix(abi, g, chain, services, tx, Prepare(abi, g, chain, tx).value)
  {
    assert CheckPreconditions(tx, p).None?;
  }

  /** A call whose original data matches no ABI item, once the prefix
      succeeds, returns the execution's return data untouched, or its error. */
  lemma {:induction false} CallWithoutAbiItemReturnsRawData(abi: Abi, g: Godwoker, chain: Chain, services: Services,
                                                            tx: EthTransaction, p: ProcessRequest)
    requires p.kind == Call && abi.interestedItem(tx.data).None?
    ensures Preparable(abi, g, chain, tx) ==> Prepare(abi, g, chain, tx).Ok?
    ensures Preparable(abi, g, chain, tx) ==>
      var prep := Prepare(abi, g, chain, tx).value;
      var sent := BuildRawL2TransactionWithAddressMapping(prep.rawTx, prep.refactored.mapping,
        Some(BuildSerializeAddressMappingAbiItem(abi, prep.refactored.data)));
      var out := services.execute(sent);
      BuildProcess(abi, g, chain, services, tx, p) == if out.Ok? then Ok(TextOutput(out.value)) else Err(out.error)
  {
    PrepareSteps(abi, g, chain, tx);
    CallDispatch(abi, g, chain, services, tx, p);
  }

  /** A call whose original data matches an ABI item, once the prefix
      succeeds, returns the execution's return data with its address outputs
      mapped back by `refactor_return_value_with_short_address`; a failure of
      the execution or of that rewrite is the result. */
  lemma {:induction false} CallWithAbiItemRewritesReturnData(abi: Abi, g: Godwoker, chain: Chain, services: Services,
                                                             tx: EthTransaction, p: ProcessRequest, item: AbiItem)
    requires p.kind == Call && abi.interestedItem(tx.data) == Some(item)
    ensures Preparable(abi, g, chain, tx) ==> Prepare(abi, g, chain, tx).Ok?
    ensures Preparable(abi, g, chain, tx) ==>
      var prep := Prepare(abi, g, chain, tx).value;
      var sent := BuildRawL2TransactionWithAddressMapping(prep.rawTx, prep.refactored.mapping,
        Some(BuildSerializeAddressMappingAbiItem(abi, prep.refactored.data)));
      var out := services.execute(sent);
      BuildProcess(abi, g, chain, services, tx, p) ==
        if out.Err? then Err(out.error)
        else
          var back := RefactorReturnValueWithShortAddress(abi, g, chain, out.value, item);
          if back.Ok? then Ok(TextOutput(back.value)) else Err(back.error)
  {
    PrepareSteps(abi, g, chain, tx);
    CallDispatch(abi, g, chain, services, tx, p);
  }

  /** `buildSendTransaction`: a send whose result must be text. */
  function BuildSendTransaction(abi: Abi, g: Godwoker, chain: Chain, services: Services, tx: EthTransaction,
                                signingMethod: Option<string -> Result<string>>, signingMessageType: Option<SigningMessageType>)
    : (r: Result<string>)
    ensures tx.from == "" ==> r == Err(SendWithoutFrom)
    ensures tx.from != "" && signingMethod.None? ==> r == Err(SendWithoutSigningMethod)
    ensures r.Ok? <==> BuildProcess(abi, g, chain, services, tx, ProcessRequest(Send, signingMethod, false, signingMessageType)).Ok?
    ensures r.Ok? ==>
      BuildProcess(abi, g, chain, services, tx, ProcessRequest(Send, signingMethod, false, signingMessageType)) == Ok(TextOutput(r.value))
  {
    var out :- BuildProcess(abi, g, chain, services, tx, ProcessRequest(Send, signingMethod, false, signingMessageType));
    match out
    case TextOutput(text) => Ok(text)
    case RawOutput(_) => Err(NonStringSendResult)
  }

  /** `executeCallTransaction`: a call whose result must be text. */
  function ExecuteCallTransaction(abi: Abi, g: Godwoker, chain: Chain, services: Services, tx: EthTransaction)
    : (r: Result<string>)
    ensures BuildProcess(abi, g, chain, services, tx, ProcessRequest(Call, None, false, None)).Ok? ==> r.Ok?
    ensures r.Ok? ==> BuildProcess(abi, g, chain, services, tx, ProcessRequest(Call, None, false, None)) == Ok(TextOutput(r.value))
  {
    var out :- BuildProcess(abi, g, chain, services, tx, ProcessRequest(Call, None, false, None));
    match out
    case TextOutput(text) => Ok(text)
    case RawOutput(_) => Err(NonStringCallResult)
  }

  /** The shape `isRawL2Transaction` inspects: any record, with each of the
      four fields possibly missing. */
  datatype LooseRecord = LooseRecord(fromId: Option<string>, toId: Option<string>, nonce: Option<string>, args: Option<string>)

  /** `isRawL2Transaction(value)`: all four fields are defined. */
  predicate IsRawL2Transaction(v: LooseRecord)
  {
    v.fromId.Some? && v.toId.Some? && v.nonce.Some? && v.args.Some?
  }

  function Loosen(tx: RawL2Transaction): LooseRecord
  {
    LooseRecord(Some(tx.fromId), Some(tx.toId), Some(tx.nonce), Some(tx.args))
  }

  /** The raw transaction a record denotes, when `isRawL2Transaction` holds of it. */
  function AsRawL2Transaction(v: LooseRecord): (r: RawL2Transaction)
    requires IsRawL2Transaction(v)
    ensures Loosen(r) == v
  {
    RawL2Transaction(v.fromId.value, v.toId.value, v.nonce.value, v.args.value)
  }

  /** `isRawL2Transaction` holds exactly of the records of raw transactions. */
  lemma {:induction false} IsRawL2TransactionExactly(v: LooseRecord)
    ensures IsRawL2Transaction(v) <==> exists tx :: Loosen(tx) == v
  {
    if IsRawL2Transaction(v) {
      assert Loosen(AsRawL2Transaction(v)) == v;
    }
  }

  /** What `buildEstimateGasTransaction` makes of the process result. A
      string is rejected; a record must pass `isRawL2Transaction`. */
  function RawResult(out: Result<ProcessOutput>): (r: Result<RawL2Transaction>)
    ensures out.Ok? && out.value.RawOutput? ==> r == Ok(out.value.rawTx)
    ensures out.Ok? && out.value.TextOutput? ==> r == Err(StringEstimateGasResult)
    ensures out.Err? ==> r == Err(out.error)
  {
    var o :- out;
    match o
    case TextOutput(_) => Err(StringEstimateGasResult)
    case RawOutput(rawTx) =>
      if !IsRawL2Transaction(Loosen(rawTx)) then Err(InvalidRawL2Transaction) else Ok(rawTx)
  }

  /** `buildEstimateGasTransaction` as written: it runs the process with the
      call tag, so a successful run yields text, which it then rejects. */
  function BuildEstimateGasTransaction(abi: Abi, g: Godwoker, chain: Chain, services: Services, tx: EthTransaction)
    : Result<RawL2Transaction>
  {
    RawResult(BuildProcess(abi, g, chain, services, tx, ProcessRequest(Call, None, false, None)))
  }

  /** The wrapper as written never returns a transaction: every successful
      call-mode run is rejected as a string. */
  lemma {:induction false} EstimateGasAsWrittenAlwaysFails(abi: Abi, g: Godwoker, chain: Chain, services: Services, tx: EthTransaction)
    ensures BuildEstimateGasTransaction(abi, g, chain, services, tx).Err?
    ensures BuildProcess(abi, g, chain, services, tx, ProcessRequest(Call, None, false, None)).Ok? ==>
      BuildEstimateGasTransaction(abi, g, chain, services, tx) == Err(StringEstimateGasResult)
  {
  }

  /** The evidently intended wrapper: the estimateGas tag, with the estimate
      hook present. */
  function BuildEstimateGasTransactionCorrected(abi: Abi, g: Godwoker, chain: Chain, services: Services, tx: EthTransaction)
    : Result<RawL2Transaction>
  {
    RawResult(BuildProcess(abi, g, chain, services, tx, ProcessRequest(EstimateGas, None, true, None)))
  }

  /** The corrected wrapper returns exactly the assembled raw transaction,
      and fails exactly when the common prefix does. */
  lemma {:induction false} EstimateGasCorrectedReturnsAssembled(abi: Abi, g: Godwoker, chain: Chain, services: Services, tx: EthTransaction)
    ensures BuildEstimateGasTransactionCorrected(abi, g, chain, services, tx).Ok? <==> Prepare(abi, g, chain, tx).Ok?
    ensures BuildEstimateGasTransactionCorrected(abi, g, chain, services, tx).Ok? ==>
      BuildEstimateGasTransactionCorrected(abi, g, chain, services, tx).value == Prepare(abi, g, chain, tx).value.rawTx
  {
    assert CheckPreconditions(tx, ProcessRequest(EstimateGas, None, true, None)).None?;
  }
}
