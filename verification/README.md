# Counter DApp client: operation dispatch and error normalisation

A Dafny model of the decision logic in the Counter DApp's browser client
(`app.js`). The client binds a handle to one deployed counter contract and
offers three buttons: read the count, increment it, and set it to a typed
value. The wallet, the contract runtime and the page are external. This
model keeps the parts of the client that decide things:

- **ErrorMessage** models `extractErrorMessage`. It turns whatever a provider
  or contract call throws into one printable line. The fields are checked in
  a fixed order: `reason`, `error.message`, `data.message`, `message`, then
  the `error.message` of the JSON-parsed `body`. If none is usable, the
  serialised error is returned. Only a non-empty string is truthy.
  `JSON.parse` and `JSON.stringify` are uninterpreted functions passed in
  as a `JsonRuntime`. A throwing `JSON.stringify` (`None`) gives the outer
  handler's `"Failed to parse error"`.
- **IntegerText** models `setCount`'s input check. It tests for the empty
  string first, then for the language of `^-?\d+$`. A character-by-character
  matcher (`MatchesIntegerPattern`) is proved to accept exactly that
  language. The module also holds the decimal rendering of the count that a
  read displays (`value.toString()` of a uint256).
- **Dispatch** models `ensureContractMethod`, `getCount`, `increment` and
  `setCount`. Each is a pure function. Its inputs are:
  - the bound handle (`Option<Contract>`, the set of function names it exposes);
  - the user's input;
  - the remote side's answers: the submission result, the receipt or a thrown
    wait, and the read value or a thrown read.

  It returns the outcome and the ordered trace of effects: alerts, status
  lines, the displayed count, and remote calls. `increment` and `setCount`
  share their submit–wait–report–refresh tail (`SubmitAndConfirm`). Only
  their texts differ.
- **DispatchProperties** relates the traces. It covers:
  - which local checks come before any request;
  - which read function is used;
  - when a write is followed by a refresh read;
  - what the status line ends as.

Two consequences of the code's structure are worth stating:

- A failed post-write refresh is not reported separately. The refresh is a
  full `getCount` run, so its read-error line becomes the final status
  (`FailedRefreshOverwritesSuccess`). So does its ABI-mismatch line, when the
  handle has neither read function (`MissingReadOverwritesSuccess`).
- A thrown submission and a thrown wait share one handler and one prefix
  (`WriteFailed`).

## Model

| member | source | states |
|---|---|---|
| ErrorMessage.Extract | app.js:71-91 | the normalised message is never empty unless the serialiser itself produced the empty string; a non-empty string error is returned unchanged |
| ErrorMessage.FirstTruthy | app.js:76-84 | the result is absent exactly when no candidate is truthy; otherwise it is the candidate at the first truthy index, and every earlier candidate is falsy |
| ErrorMessage.ExtractIsFirstTruthyCandidate | app.js:76-87 | for an error object, the source's if-chain equals "first truthy of reason, error.message, data.message, message, body error.message, else the serialised error" |
| ErrorMessage.PriorityIsStrict | app.js:76-84 | if the i-th candidate is truthy and all earlier ones are falsy, the result is that candidate, whatever the later fields hold; empty or absent fields fall through |
| ErrorMessage.NoFieldFallsBackToStringify | app.js:81-89 | with no usable field, and a body that is empty, unparseable or lacks error.message, the result is the stringified error, or "Failed to parse error" when stringify throws |
| ErrorMessage.FalsyOrStringError | app.js:74-75 | an absent/falsy error or an empty string yields "Unknown error object"; a non-empty string error is returned as is |
| ErrorMessage.BodyOnlyErrorYieldsBodyMessage | app.js:81-85 | an object whose only field is a body parsing to {"error":{"message":m}} yields m |
| IntegerText.CheckInput | app.js:205-215 | the input is refused as empty exactly when it is "", refused as malformed exactly when it is non-empty and outside ^-?\d+$, and accepted exactly when it is in that language |
| IntegerText.MatchesIntegerPattern | app.js:212 | the left-to-right matcher accepts a string if and only if it is an optional '-' followed by one or more ASCII digits and nothing else |
| IntegerText.PatternExamples | app.js:205-215 | "", "12.5", "abc", "-", "+1" and " 1" are refused; "0", "42" and "-7" pass, so negatives are not refused locally |
| IntegerText.Decimal | app.js:151 | the rendered count is a non-empty digit string with no leading zero unless the count is 0 |
| IntegerText.DecimalRoundTrip | app.js:151 | reading the rendered digits back gives the count |
| IntegerText.DecimalInjective | app.js:151 | two counts render to the same text only when they are equal |
| Dispatch.EnsureContractMethod | app.js:128-133 | no function is available when no handle is bound |
| Dispatch.GetCount | app.js:135-158 | not connected exactly when no handle is bound; ABI mismatch exactly when the handle has neither getCount nor count; otherwise the value is fetched (and reported as read) or the read fails |
| Dispatch.SubmitAndConfirm | app.js:172-190 | a write's tail starts with its submission and ends as a write failure, a reverted transaction, or a confirmation |
| Dispatch.Increment | app.js:160-191 | not connected exactly when no handle is bound; ABI mismatch exactly when the bound handle lacks increment |
| Dispatch.SetCount | app.js:193-233 | not connected without a handle; ABI mismatch exactly when setCount is missing, whatever the input; empty input and malformed input are refused only after the capability check passes |
| DispatchProperties.NotConnectedIsSilent | app.js:136-139 | with no handle, each of the three operations only alerts "Connect your wallet first.", makes no request and writes no status |
| DispatchProperties.ChecksPrecedeCalls | app.js:193-219 | an operation makes a request if and only if a handle is bound, it has the needed function, and (for setCount) the input matches the pattern; a write's first request is its own submission |
| DispatchProperties.ReadPrefersGetCount | app.js:147-156 | a read makes exactly one call, to getCount when present and to count only otherwise; a value is displayed and reported as "Fetched current count: " plus its decimal text; a thrown read is reported with the normalised message |
| DispatchProperties.ReadAbiMismatchIsLocal | app.js:141-145 | a handle lacking both read functions gets the ABI-mismatch status line and no request |
| DispatchProperties.SetCountChecksAbiBeforeInput | app.js:199-205 | without setCount the run is the same for every input, and makes no request |
| DispatchProperties.BadInputIsRefusedLocally | app.js:205-215 | an empty or malformed input gives exactly one alert (which one depends on emptiness), no request and no status change |
| DispatchProperties.ThrownWriteSkipsRefresh | app.js:172-190 | a thrown submission or wait is reported as the operation's error prefix plus the normalised message; the calls stop at the submission or the wait, with no refresh |
| DispatchProperties.RevertedWriteSkipsRefresh | app.js:179-183 | a receipt with status 0 gives the failed-transaction line as final status, and the only calls are the submission and the wait |
| DispatchProperties.ConfirmedWriteRefreshes | app.js:181-186 | any other receipt status gives the success line followed by one complete getCount run; the calls are submission, wait, then the read's calls (exactly three when a read function exists) |
| DispatchProperties.FailedRefreshOverwritesSuccess | app.js:183-186 | after a confirmed write whose refresh read throws, the final status is the read error, not the write's success line |
| DispatchProperties.MissingReadOverwritesSuccess | app.js:141-145 | after a confirmed write on a handle with neither getCount nor count, the outcome is a confirmation whose refresh is an ABI mismatch, the final status is the read ABI-mismatch line, and the only calls are the submission and the wait |
| DispatchProperties.ShippedAbiNeverMismatches | app.js:2-49 | a handle exposing the four functions of the client's interface never reports an ABI mismatch, and its reads use getCount |

## Left out

- `connectWallet` (app.js:93-126): provider construction, the account request and the network read are all calls into the wallet library. The model takes the bound handle as an input.
- `setStatus`, `alert` and console output (app.js:66-69): the status sink is the returned trace. Console logging is not modelled.
- The `accountsChanged` and `chainChanged` listeners (app.js:243-257): they only write display strings and never rebind the handle.
- `BigInt(newValue)` and uint256 encoding (app.js:219): these belong to the contract library. A negative input passes the local check, and its rejection at submission is a `SubmitErr` answer.
- The internals of `JSON.parse` and `JSON.stringify` (app.js:83, 87) are uninterpreted parameters.
- Interleaving of concurrent button presses, and a reconnect during an await: the handle is fixed for the duration of one operation.
- The ABI constant (app.js:2-49) is kept only as the set of function names. The model tests capability as membership in a name set. It does not separately model properties that exist on the handle but are not functions.
- ErrorMessage.Extract: thrown values are falsy non-strings, strings or objects. A truthy number, boolean or function is not a separate case. Neither is a field holding a non-string truthy value, or a body that is not a string. A `JSON.stringify` that returns `undefined` is not a case either. Property getters that throw are not modelled.
- Dispatch.SubmitAndConfirm: a `null` receipt throws when `.status` is read. It is covered by the thrown-wait answer, not by a separate case. A non-string `tx.hash` is not modelled.
- Dispatch.EnsureContractMethod: its contract states only that nothing is available without a bound handle. On a bound handle it is membership of the name in the handle's function set, and that is its definition.
