/** The decision logic of the three contract operations (`getCount`,
    `increment`, `setCount` in app.js). Each press of a button runs one of
    them to completion against the contract handle bound at that moment;
    every remote answer is an input, and the result is the outcome plus the
    ordered trace of what the client did. */
module Dispatch {
  import opened Wrappers
  import opened ErrorMessage
  import opened IntegerText

  /** A bound contract handle, seen only through the names of the functions
      it exposes. */
  datatype Contract = Contract(methods: set<string>)

  /** The function names of the interface the client is built with. */
  const CounterAbi: set<string> := {"increment", "setCount", "count", "getCount"}

  /** `ensureContractMethod(name)`: a handle is bound and exposes `name`. */
  function EnsureContractMethod(contract: Option<Contract>, name: string): (b: bool)
    ensures contract.None? ==> !b
  {
    contract.Some? && name in contract.value.methods
  }

  /** A request that leaves the browser. */
  datatype RemoteCall =
    | Read(name: string)
    | Submit(name: string, argument: Option<string>)
    | AwaitReceipt

  /** A line written to the status sink; `isError` is `setStatus`'s flag. */
  datatype StatusLine = StatusLine(text: string, isError: bool)

  /** One observable step of an operation, in the order it happens. */
  datatype Effect =
    | Alert(message: string)
    | Status(line: StatusLine)
    | ShowCount(text: string)
    | Remote(call: RemoteCall)

  /** What the read call answers: a uint256 value, or a thrown error. */
  datatype ReadResult = ReadOk(value: nat) | ReadErr(readError: RawError)

  /** What submitting a write answers: a transaction (its hash may be
      missing), or a thrown error. */
  datatype SubmitResult = SubmitOk(hash: Option<string>) | SubmitErr(submitError: RawError)

  /** What waiting for the receipt answers: a receipt whose status may be
      null, or a thrown error. */
  datatype WaitResult = Receipt(status: Option<int>) | WaitErr(waitError: RawError)

  /** The remote side's answers to one operation. `read` answers the read of
      `getCount`, and the refresh read that follows a confirmed write. */
  datatype Responses = Responses(submit: SubmitResult, wait: WaitResult, read: ReadResult)

  /** The tagged outcome of one operation. */
  datatype Outcome =
    | NotConnected
    | AbiMismatch
    | EmptyInput
    | InvalidInput
    | Fetched(count: nat)
    | FetchFailed(message: string)
    | WriteFailed(message: string)
    | Reverted
    | Confirmed(refresh: Outcome)

  datatype Run = Run(outcome: Outcome, effects: seq<Effect>)

  /** The texts a write operation reports with. */
  datatype WriteTexts = WriteTexts(reverted: string, confirmed: string, errorPrefix: string)

  const ConnectFirst: string := "Connect your wallet first."
  const ReadAbiMismatch: string := "Contract does not have getCount/count methods (ABI mismatch)."
  const IncrementAbiMismatch: string := "Contract does not have increment() method (ABI mismatch)."
  const SetCountAbiMismatch: string := "Contract does not have setCount(uint256) method (ABI mismatch)."
  const EnterValue: string := "Enter a value first."
  const EnterInteger: string := "Enter a valid integer value."
  const FetchedPrefix: string := "Fetched current count: "
  const FetchErrorPrefix: string := "Error fetching count: "
  const TxSentPrefix: string := "Transaction sent. Tx hash: "
  const NoHash: string := "(no-hash)"

  const IncrementTexts: WriteTexts := WriteTexts(
    "Transaction failed (status 0). Check explorer and console for details.",
    "Increment successful! Tx confirmed.",
    "Error incrementing: ")

  const SetCountTexts: WriteTexts := WriteTexts(
    "Transaction failed (status 0).",
    "Set count successful!",
    "Error setting count: ")

  /** The remote calls of a trace, in order. */
  function Calls(es: seq<Effect>): seq<RemoteCall> {
    if es == [] then [] else CallOf(es[0]) + Calls(es[1..])
  }

  /** The request an effect makes, if it is one. */
  function CallOf(e: Effect): seq<RemoteCall> {
    if e.Remote? then [e.call] else []
  }

  /** The last line written to the status sink, if any: None means the
      operation left the status as it was. */
  function FinalStatus(es: seq<Effect>): (s: Option<StatusLine>)
    ensures s.Some? ==> Status(s.value) in es
    ensures s.None? <==> forall i :: 0 <= i < |es| ==> !es[i].Status?
  {
    if es == [] then None
    else if es[|es| - 1].Status? then Some(es[|es| - 1].line)
    else FinalStatus(es[..|es| - 1])
  }

  /** `getCount()`. */
  function GetCount(contract: Option<Contract>, read: ReadResult, json: JsonRuntime): (r: Run)
    ensures r.outcome == NotConnected <==> contract.None?
    ensures r.outcome == AbiMismatch <==>
              contract.Some? && "getCount" !in contract.value.methods && "count" !in contract.value.methods
    ensures r.outcome.Fetched? || r.outcome.FetchFailed? <==>
              contract.Some? && ("getCount" in contract.value.methods || "count" in contract.value.methods)
    ensures read.ReadOk? && r.outcome.Fetched? ==> r.outcome.count == read.value
  {
    if contract.None? then
      Run(NotConnected, [Alert(ConnectFirst)])
    else if !EnsureContractMethod(contract, "getCount") && !EnsureContractMethod(contract, "count") then
      Run(AbiMismatch, [Status(StatusLine(ReadAbiMismatch, true))])
    else
      var reader := if EnsureContractMethod(contract, "getCount") then "getCount" else "count";
      match read
      case ReadOk(v) =>
        Run(Fetched(v), [Remote(Read(reader)), ShowCount(Decimal(v)),
                         Status(StatusLine(FetchedPrefix + Decimal(v), false))])
      case ReadErr(e) =>
        Run(FetchFailed(Extract(e, json)), [Remote(Read(reader)),
                                            Status(StatusLine(FetchErrorPrefix + Extract(e, json), true))])
  }

  /** The shared tail of `increment` and `setCount`: submit, report the
      transaction, wait for its receipt, then report the result and, on
      success, refresh the displayed count. */
  function SubmitAndConfirm(contract: Option<Contract>, call: RemoteCall, texts: WriteTexts,
                            net: Responses, json: JsonRuntime): (r: Run)
    ensures r.outcome.WriteFailed? || r.outcome.Reverted? || r.outcome.Confirmed?
    ensures |r.effects| > 0 && r.effects[0] == Remote(call)
  {
    match net.submit
    case SubmitErr(e) =>
      Run(WriteFailed(Extract(e, json)), [Remote(call), Status(StatusLine(texts.errorPrefix + Extract(e, json), true))])
    case SubmitOk(hash) =>
      var sent := [Remote(call), Status(TxSentLine(hash)), Remote(AwaitReceipt)];
      match net.wait
      case WaitErr(e) =>
        Run(WriteFailed(Extract(e, json)), sent + [Status(StatusLine(texts.errorPrefix + Extract(e, json), true))])
      case Receipt(status) =>
        if status == Some(0) then
          Run(Reverted, sent + [Status(StatusLine(texts.reverted, true))])
        else
          var refresh := GetCount(contract, net.read, json);
          Run(Confirmed(refresh.outcome), sent + [Status(StatusLine(texts.confirmed, false))] + refresh.effects)
  }

  /** The report that a transaction was submitted, naming its hash. */
  function TxSentLine(hash: Option<string>): StatusLine {
    StatusLine(TxSentPrefix + (if Truthy(hash) then hash.value else NoHash), false)
  }

  /** `increment()`. */
  function Increment(contract: Option<Contract>, net: Responses, json: JsonRuntime): (r: Run)
    ensures r.outcome == NotConnected <==> contract.None?
    ensures r.outcome == AbiMismatch <==> contract.Some? && "increment" !in contract.value.methods
  {
    if contract.None? then
      Run(NotConnected, [Alert(ConnectFirst)])
    else if !EnsureContractMethod(contract, "increment") then
      Run(AbiMismatch, [Status(StatusLine(IncrementAbiMismatch, true))])
    else
      SubmitAndConfirm(contract, Submit("increment", None), IncrementTexts, net, json)
  }

  /** `setCount()`, with `input` the text field's value at the moment it is read. */
  function SetCount(contract: Option<Contract>, input: string, net: Responses, json: JsonRuntime): (r: Run)
    ensures r.outcome == NotConnected <==> contract.None?
    ensures r.outcome == AbiMismatch <==> contract.Some? && "setCount" !in contract.value.methods
    ensures r.outcome == EmptyInput <==> contract.Some? && "setCount" in contract.value.methods && input == ""
    ensures r.outcome == InvalidInput <==>
              contract.Some? && "setCount" in contract.value.methods && input != "" && !IsIntegerLiteral(input)
  {
    if contract.None? then
      Run(NotConnected, [Alert(ConnectFirst)])
    else if !EnsureContractMethod(contract, "setCount") then
      Run(AbiMismatch, [Status(StatusLine(SetCountAbiMismatch, true))])
    else
      match CheckInput(input)
      case Empty => Run(EmptyInput, [Alert(EnterValue)])
      case Malformed => Run(InvalidInput, [Alert(EnterInteger)])
      case WellFormed => SubmitAndConfirm(contract, Submit("setCount", Some(input)), SetCountTexts, net, json)
  }

  /** The three buttons. */
  datatype Operation = GetCountOp | IncrementOp | SetCountOp(input: string)

  function Perform(op: Operation, contract: Option<Contract>, net: Responses, json: JsonRuntime): Run {
    match op
    case GetCountOp => GetCount(contract, net.read, json)
    case IncrementOp => Increment(contract, net, json)
    case SetCountOp(input) => SetCount(contract, input, net, json)
  }
}
