/** Properties of the operation dispatcher that relate its traces: which
    checks come before any request, which read is issued, and when a write
    is followed by a refresh. */
module DispatchProperties {
  import opened Wrappers
  import opened ErrorMessage
  import opened IntegerText
  import opened Dispatch

  /** The capability an operation probes for before doing anything remote. */
  predicate Capable(op: Operation, methods: set<string>) {
    match op
    case GetCountOp => "getCount" in methods || "count" in methods
    case IncrementOp => "increment" in methods
    case SetCountOp(_) => "setCount" in methods
  }

  /** Every local check of an operation passes: a handle is bound, it has the
      capability, and a `setCount` input has the integer shape. */
  predicate ChecksPass(op: Operation, contract: Option<Contract>) {
    && contract.Some?
    && Capable(op, contract.value.methods)
    && (op.SetCountOp? ==> IsIntegerLiteral(op.input))
  }

  /** The submission a write operation makes. */
  function WriteCall(op: Operation): RemoteCall
    requires !op.GetCountOp?
  {
    if op.IncrementOp? then Submit("increment", None) else Submit("setCount", Some(op.input))
  }

  function TextsOf(op: Operation): WriteTexts
    requires !op.GetCountOp?
  {
    if op.IncrementOp? then IncrementTexts else SetCountTexts
  }

  /** Calls distribute over concatenation of traces. */
  lemma {:induction false} CallsAppend(a: seq<Effect>, b: seq<Effect>)
    ensures Calls(a + b) == Calls(a) + Calls(b)
    decreases |a|
  {
    if a == [] {
      assert a + b == b;
    } else {
      var ab := a + b;
      assert ab[0] == a[0] && ab[1..] == a[1..] + b;
      CallsAppend(a[1..], b);
      assert Calls(ab) == CallOf(a[0]) + (Calls(a[1..]) + Calls(b));
    }
  }

  /** A trace's calls are its first effect's, then the rest's. */
  lemma CallsCons(e: Effect, rest: seq<Effect>)
    ensures Calls([e] + rest) == CallOf(e) + Calls(rest)
  {
    assert ([e] + rest)[1..] == rest;
  }

  /** A trace with no request in it contributes no calls. */
  lemma {:induction false} NoCalls(es: seq<Effect>)
    requires forall i :: 0 <= i < |es| ==> !es[i].Remote?
    ensures Calls(es) == []
    decreases |es|
  {
    if es != [] {
      NoCalls(es[1..]);
    }
  }

  /** The calls of the read operation's trace once its checks pass. */
  lemma ReadCalls(m: set<string>, read: ReadResult, json: JsonRuntime)
    requires "getCount" in m || "count" in m
    ensures Calls(GetCount(Some(Contract(m)), read, json).effects)
              == [Read(if "getCount" in m then "getCount" else "count")]
  {
    var es := GetCount(Some(Contract(m)), read, json).effects;
    assert es == [es[0]] + es[1..];
    CallsCons(es[0], es[1..]);
    NoCalls(es[1..]);
  }

  /** The calls of a write's shared tail before any refresh: the
      submission, then the wait when the submission returned. */
  lemma WriteHeadCalls(call: RemoteCall, line: StatusLine, tail: seq<Effect>)
    requires forall i :: 0 <= i < |tail| ==> !tail[i].Remote?
    ensures Calls([Remote(call), Status(line), Remote(AwaitReceipt)] + tail) == [call, AwaitReceipt]
  {
    var head := [Remote(call), Status(line), Remote(AwaitReceipt)];
    var last := [Remote(AwaitReceipt)];
    assert head[1..][1..] == last && last[1..] == [];
    assert Calls(last) == [AwaitReceipt];
    assert Calls(head) == [call, AwaitReceipt];
    CallsAppend(head, tail);
    NoCalls(tail);
  }

  /** The calls of a write whose submission threw: the submission alone. */
  lemma SubmitOnlyCalls(call: RemoteCall, tail: seq<Effect>)
    requires forall i :: 0 <= i < |tail| ==> !tail[i].Remote?
    ensures Calls([Remote(call)] + tail) == [call]
  {
    NoCalls(tail);
    CallsCons(Remote(call), tail);
  }

  /** The last status of a concatenation is the second part's, unless that
      part writes none. */
  lemma {:induction false} FinalStatusAppend(a: seq<Effect>, b: seq<Effect>)
    ensures FinalStatus(a + b) == if FinalStatus(b).Some? then FinalStatus(b) else FinalStatus(a)
    decreases |b|
  {
    if b == [] {
      assert a + b == a;
    } else {
      assert (a + b)[..|a + b| - 1] == a + b[..|b| - 1];
      FinalStatusAppend(a, b[..|b| - 1]);
    }
  }

  /** With no handle bound, every operation only alerts: no request is made
      and the status line is left alone. */
  lemma NotConnectedIsSilent(op: Operation, net: Responses, json: JsonRuntime)
    ensures Perform(op, None, net, json).outcome == NotConnected
    ensures Perform(op, None, net, json).effects == [Alert(ConnectFirst)]
    ensures Calls(Perform(op, None, net, json).effects) == []
    ensures FinalStatus(Perform(op, None, net, json).effects) == None
  {
  }

  /** An operation issues a request exactly when all its local checks pass;
      the first request is the operation's own. */
  lemma ChecksPrecedeCalls(op: Operation, contract: Option<Contract>, net: Responses, json: JsonRuntime)
    ensures Calls(Perform(op, contract, net, json).effects) != [] <==> ChecksPass(op, contract)
    ensures ChecksPass(op, contract) && !op.GetCountOp? ==>
              Calls(Perform(op, contract, net, json).effects)[0] == WriteCall(op)
  {
    var r := Perform(op, contract, net, json);
    if ChecksPass(op, contract) && !op.GetCountOp? {
      var sc := SubmitAndConfirm(contract, WriteCall(op), TextsOf(op), net, json);
      assert r == sc;
      assert sc.effects == [sc.effects[0]] + sc.effects[1..];
      CallsAppend([sc.effects[0]], sc.effects[1..]);
    }
  }

  /** The read issues exactly one call: `getCount` when the handle has it,
      `count` only otherwise; the value read is displayed and reported. */
  lemma ReadPrefersGetCount(m: set<string>, read: ReadResult, json: JsonRuntime)
    requires "getCount" in m || "count" in m
    ensures Calls(GetCount(Some(Contract(m)), read, json).effects)
              == [Read(if "getCount" in m then "getCount" else "count")]
    ensures read.ReadOk? ==>
              && ShowCount(Decimal(read.value)) in GetCount(Some(Contract(m)), read, json).effects
              && FinalStatus(GetCount(Some(Contract(m)), read, json).effects)
                   == Some(StatusLine(FetchedPrefix + Decimal(read.value), false))
    ensures read.ReadErr? ==>
              && GetCount(Some(Contract(m)), read, json).outcome == FetchFailed(Extract(read.readError, json))
              && FinalStatus(GetCount(Some(Contract(m)), read, json).effects)
                   == Some(StatusLine(FetchErrorPrefix + Extract(read.readError, json), true))
  {
    ReadCalls(m, read, json);
  }

  /** A handle lacking both read functions fails with the ABI-mismatch
      status and makes no request. */
  lemma ReadAbiMismatchIsLocal(m: set<string>, read: ReadResult, json: JsonRuntime)
    requires "getCount" !in m && "count" !in m
    ensures Calls(GetCount(Some(Contract(m)), read, json).effects) == []
    ensures FinalStatus(GetCount(Some(Contract(m)), read, json).effects) == Some(StatusLine(ReadAbiMismatch, true))
  {
  }

  /** `setCount` probes its capability before it looks at the input: without
      the function, every input gives the same run. */
  lemma SetCountChecksAbiBeforeInput(m: set<string>, input1: string, input2: string,
                                     net: Responses, json: JsonRuntime)
    requires "setCount" !in m
    ensures SetCount(Some(Contract(m)), input1, net, json) == SetCount(Some(Contract(m)), input2, net, json)
    ensures Calls(SetCount(Some(Contract(m)), input1, net, json).effects) == []
  {
  }

  /** A malformed or empty input is refused with an alert only. */
  lemma BadInputIsRefusedLocally(m: set<string>, input: string, net: Responses, json: JsonRuntime)
    requires "setCount" in m && !IsIntegerLiteral(input)
    ensures Calls(SetCount(Some(Contract(m)), input, net, json).effects) == []
    ensures FinalStatus(SetCount(Some(Contract(m)), input, net, json).effects) == None
    ensures SetCount(Some(Contract(m)), input, net, json).effects
              == [Alert(if input == "" then EnterValue else EnterInteger)]
  {
  }

  /** A thrown submission or a thrown wait is reported as the operation's
      error prefix plus the normalised message, and nothing is refreshed. */
  lemma ThrownWriteSkipsRefresh(op: Operation, contract: Option<Contract>, net: Responses, json: JsonRuntime)
    requires !op.GetCountOp? && ChecksPass(op, contract)
    requires net.submit.SubmitErr? || net.wait.WaitErr?
    ensures var e := if net.submit.SubmitErr? then net.submit.submitError else net.wait.waitError;
            && Perform(op, contract, net, json).outcome == WriteFailed(Extract(e, json))
            && FinalStatus(Perform(op, contract, net, json).effects)
                 == Some(StatusLine(TextsOf(op).errorPrefix + Extract(e, json), true))
    ensures Calls(Perform(op, contract, net, json).effects)
              == if net.submit.SubmitErr? then [WriteCall(op)] else [WriteCall(op), AwaitReceipt]
  {
    var r := Perform(op, contract, net, json);
    assert r == SubmitAndConfirm(contract, WriteCall(op), TextsOf(op), net, json);
    if net.submit.SubmitErr? {
      var e := net.submit.submitError;
      SubmitOnlyCalls(WriteCall(op), [Status(StatusLine(TextsOf(op).errorPrefix + Extract(e, json), true))]);
    } else {
      var e := net.wait.waitError;
      WriteHeadCalls(WriteCall(op), TxSentLine(net.submit.hash),
                     [Status(StatusLine(TextsOf(op).errorPrefix + Extract(e, json), true))]);
    }
  }

  /** A receipt with status 0 is reported as a failed transaction and no
      refresh read follows. */
  lemma RevertedWriteSkipsRefresh(op: Operation, contract: Option<Contract>, net: Responses, json: JsonRuntime)
    requires !op.GetCountOp? && ChecksPass(op, contract)
    requires net.submit.SubmitOk? && net.wait == Receipt(Some(0))
    ensures Perform(op, contract, net, json).outcome == Reverted
    ensures Calls(Perform(op, contract, net, json).effects) == [WriteCall(op), AwaitReceipt]
    ensures FinalStatus(Perform(op, contract, net, json).effects) == Some(StatusLine(TextsOf(op).reverted, true))
  {
    var r := Perform(op, contract, net, json);
    assert r == SubmitAndConfirm(contract, WriteCall(op), TextsOf(op), net, json);
    WriteHeadCalls(WriteCall(op), TxSentLine(net.submit.hash), [Status(StatusLine(TextsOf(op).reverted, true))]);
  }

  /** Any other receipt status reports success and then runs exactly the
      read operation once more: the trace is the write's own steps, the
      success line, then a complete `getCount` run. */
  lemma ConfirmedWriteRefreshes(op: Operation, contract: Option<Contract>, net: Responses, json: JsonRuntime)
    requires !op.GetCountOp? && ChecksPass(op, contract)
    requires net.submit.SubmitOk? && net.wait.Receipt? && net.wait.status != Some(0)
    ensures var refresh := GetCount(contract, net.read, json);
            && Perform(op, contract, net, json).outcome == Confirmed(refresh.outcome)
            && (exists sent :: Perform(op, contract, net, json).effects
                 == sent + [Status(StatusLine(TextsOf(op).confirmed, false))] + refresh.effects)
            && Calls(Perform(op, contract, net, json).effects)
                 == [WriteCall(op), AwaitReceipt] + Calls(refresh.effects)
    ensures "getCount" in contract.value.methods || "count" in contract.value.methods ==>
              |Calls(Perform(op, contract, net, json).effects)| == 3
  {
    var r := Perform(op, contract, net, json);
    var sc := SubmitAndConfirm(contract, WriteCall(op), TextsOf(op), net, json);
    assert r == sc;
    var refresh := GetCount(contract, net.read, json);
    var ok := [Status(StatusLine(TextsOf(op).confirmed, false))];
    var sent := [Remote(WriteCall(op)), Status(TxSentLine(net.submit.hash)), Remote(AwaitReceipt)];
    assert sc.effects == sent + ok + refresh.effects;
    WriteHeadCalls(WriteCall(op), TxSentLine(net.submit.hash), ok);
    CallsAppend(sent + ok, refresh.effects);
    if "getCount" in contract.value.methods || "count" in contract.value.methods {
      ReadCalls(contract.value.methods, net.read, json);
    }
  }

  /** The refresh's own report is the last word: a refresh that fails
      replaces the write's success line with the read error. */
  lemma FailedRefreshOverwritesSuccess(op: Operation, contract: Option<Contract>, net: Responses, json: JsonRuntime)
    requires !op.GetCountOp? && ChecksPass(op, contract)
    requires net.submit.SubmitOk? && net.wait.Receipt? && net.wait.status != Some(0)
    requires net.read.ReadErr?
    requires "getCount" in contract.value.methods || "count" in contract.value.methods
    ensures Perform(op, contract, net, json).outcome == Confirmed(FetchFailed(Extract(net.read.readError, json)))
    ensures FinalStatus(Perform(op, contract, net, json).effects)
              == Some(StatusLine(FetchErrorPrefix + Extract(net.read.readError, json), true))
  {
    var r := Perform(op, contract, net, json);
    var refresh := GetCount(contract, net.read, json);
    ConfirmedWriteRefreshes(op, contract, net, json);
    var sent: seq<Effect> :| r.effects == sent + [Status(StatusLine(TextsOf(op).confirmed, false))] + refresh.effects;
    FinalStatusAppend(sent + [Status(StatusLine(TextsOf(op).confirmed, false))], refresh.effects);
  }

  /** A confirmed write on a handle with neither read function runs the
      refresh into its ABI check: the mismatch line replaces the write's
      success line as the final status, and no read is issued. */
  lemma MissingReadOverwritesSuccess(op: Operation, contract: Option<Contract>, net: Responses, json: JsonRuntime)
    requires !op.GetCountOp? && ChecksPass(op, contract)
    requires net.submit.SubmitOk? && net.wait.Receipt? && net.wait.status != Some(0)
    requires "getCount" !in contract.value.methods && "count" !in contract.value.methods
    ensures Perform(op, contract, net, json).outcome == Confirmed(AbiMismatch)
    ensures FinalStatus(Perform(op, contract, net, json).effects) == Some(StatusLine(ReadAbiMismatch, true))
    ensures Calls(Perform(op, contract, net, json).effects) == [WriteCall(op), AwaitReceipt]
  {
    var r := Perform(op, contract, net, json);
    var refresh := GetCount(contract, net.read, json);
    ConfirmedWriteRefreshes(op, contract, net, json);
    var sent: seq<Effect> :| r.effects == sent + [Status(StatusLine(TextsOf(op).confirmed, false))] + refresh.effects;
    FinalStatusAppend(sent + [Status(StatusLine(TextsOf(op).confirmed, false))], refresh.effects);
  }

  /** A handle built from the client's own interface never reports an ABI
      mismatch, and its reads always use `getCount`. */
  lemma ShippedAbiNeverMismatches(op: Operation, m: set<string>, net: Responses, json: JsonRuntime)
    requires CounterAbi <= m
    ensures Perform(op, Some(Contract(m)), net, json).outcome != AbiMismatch
    ensures Calls(GetCount(Some(Contract(m)), net.read, json).effects) == [Read("getCount")]
  {
    assert "getCount" in CounterAbi && "increment" in CounterAbi && "setCount" in CounterAbi;
    ReadCalls(m, net.read, json);
  }
}
