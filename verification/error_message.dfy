/** Normalisation of whatever a wallet provider or contract call throws into
    one printable line (`extractErrorMessage` in app.js). */
module ErrorMessage {
  import opened Wrappers

  /** A nested `{ message }` object: `err.error`, `err.data`, or the `error`
      member of a parsed `err.body`. */
  datatype Nested = Nested(message: Option<string>)

  /** The fields of a thrown object that the normaliser inspects. Every field
      is optional; `body` is the raw JSON text some providers attach. */
  datatype ErrorObject = ErrorObject(
    reason: Option<string>,
    error: Option<Nested>,
    data: Option<Nested>,
    message: Option<string>,
    body: Option<string>)

  /** A thrown value as JavaScript truthiness sees it: a falsy non-string
      (`undefined`, `null`, `false`, `0`), a string (the empty one is falsy
      too), or an object. */
  datatype RawError =
    | Nothing
    | Text(text: string)
    | Object(fields: ErrorObject)

  /** What `JSON.parse` made of a body: it threw, or it produced a value whose
      `error` member may hold a nested message. */
  datatype ParseOutcome = ParseError | Parsed(error: Option<Nested>)

  /** The JSON library, left uninterpreted. `stringify` yields None when
      `JSON.stringify` throws (a cyclic object, a BigInt field). */
  datatype JsonRuntime = JsonRuntime(
    parse: string -> ParseOutcome,
    stringify: RawError -> Option<string>)

  const UnknownError: string := "Unknown error object"
  const ParseFailure: string := "Failed to parse error"

  /** JavaScript truthiness of an optional string field. */
  predicate Truthy(s: Option<string>) {
    s.Some? && s.value != ""
  }

  /** `n && n.message`, read as an optional string. */
  function NestedMessage(n: Option<Nested>): Option<string> {
    match n
    case Some(inner) => inner.message
    case None => None
  }

  /** The message carried by `JSON.parse(body).error.message`, if the body is
      truthy and parses. A parse failure is swallowed. */
  function BodyMessage(body: Option<string>, json: JsonRuntime): Option<string> {
    if Truthy(body) then
      match json.parse(body.value)
      case ParseError => None
      case Parsed(e) => NestedMessage(e)
    else
      None
  }

  /** The last resort: the serialised error, or the outer handler's fixed text
      when serialisation itself throws. */
  function Fallback(err: RawError, json: JsonRuntime): string {
    json.stringify(err).GetOr(ParseFailure)
  }

  /** `extractErrorMessage(err)`, written as the source's chain of checks. */
  function Extract(err: RawError, json: JsonRuntime): (r: string)
    ensures r == "" ==> json.stringify(err) == Some("")
    ensures err.Text? && err.text != "" ==> r == err.text
  {
    match err
    case Nothing => UnknownError
    case Text(s) => if s == "" then UnknownError else s
    case Object(o) =>
      if Truthy(o.reason) then o.reason.value
      else if Truthy(NestedMessage(o.error)) then NestedMessage(o.error).value
      else if Truthy(NestedMessage(o.data)) then NestedMessage(o.data).value
      else if Truthy(o.message) then o.message.value
      else if Truthy(BodyMessage(o.body, json)) then BodyMessage(o.body, json).value
      else Fallback(err, json)
  }

  /** The places an explanation is looked for, most specific first. */
  function Candidates(o: ErrorObject, json: JsonRuntime): (cs: seq<Option<string>>)
    ensures |cs| == 5
  {
    [o.reason, NestedMessage(o.error), NestedMessage(o.data), o.message, BodyMessage(o.body, json)]
  }

  /** The first truthy entry of a list of optional strings. */
  function FirstTruthy(cs: seq<Option<string>>): (r: Option<string>)
    ensures r.None? <==> forall i :: 0 <= i < |cs| ==> !Truthy(cs[i])
    ensures r.Some? ==> exists i :: 0 <= i < |cs| && cs[i] == r && Truthy(cs[i])
                          && forall j :: 0 <= j < i ==> !Truthy(cs[j])
  {
    if |cs| == 0 then None
    else if Truthy(cs[0]) then cs[0]
    else FirstTruthy(cs[1..])
  }

  /** The normaliser is "the first truthy candidate, else the fallback". */
  lemma {:induction false} ExtractIsFirstTruthyCandidate(o: ErrorObject, json: JsonRuntime)
    ensures Extract(Object(o), json) == FirstTruthy(Candidates(o, json)).GetOr(Fallback(Object(o), json))
  {
    var cs := Candidates(o, json);
    var t1, t2, t3, t4 := cs[1..], cs[2..], cs[3..], cs[4..];
    assert t1[1..] == t2 && t2[1..] == t3 && t3[1..] == t4 && t4[1..] == [];
    assert FirstTruthy(t4) == if Truthy(cs[4]) then cs[4] else None;
    assert FirstTruthy(t3) == if Truthy(cs[3]) then cs[3] else FirstTruthy(t4);
    assert FirstTruthy(t2) == if Truthy(cs[2]) then cs[2] else FirstTruthy(t3);
    assert FirstTruthy(t1) == if Truthy(cs[1]) then cs[1] else FirstTruthy(t2);
    assert FirstTruthy(cs) == if Truthy(cs[0]) then cs[0] else FirstTruthy(t1);
  }

  /** Field priority is strict: the first truthy candidate wins, whatever
      the later ones hold. */
  lemma PriorityIsStrict(o: ErrorObject, json: JsonRuntime, i: nat)
    requires i < 5
    requires Truthy(Candidates(o, json)[i])
    requires forall j :: 0 <= j < i ==> !Truthy(Candidates(o, json)[j])
    ensures Extract(Object(o), json) == Candidates(o, json)[i].value
  {
    var cs := Candidates(o, json);
    ExtractIsFirstTruthyCandidate(o, json);
    var k :| 0 <= k < |cs| && cs[k] == FirstTruthy(cs) && Truthy(cs[k])
             && forall j :: 0 <= j < k ==> !Truthy(cs[j]);
    assert k == i;
  }

  /** With no usable field, a body that is empty, unparseable or lacks
      `error.message` ends in the serialised error. */
  lemma NoFieldFallsBackToStringify(o: ErrorObject, json: JsonRuntime)
    requires forall i :: 0 <= i < 4 ==> !Truthy(Candidates(o, json)[i])
    requires !Truthy(o.body) || json.parse(o.body.value).ParseError?
             || !Truthy(NestedMessage(json.parse(o.body.value).error))
    ensures Extract(Object(o), json) == Fallback(Object(o), json)
    ensures json.stringify(Object(o)).None? ==> Extract(Object(o), json) == ParseFailure
  {
    assert !Truthy(Candidates(o, json)[0]);
    assert !Truthy(Candidates(o, json)[1]);
    assert !Truthy(Candidates(o, json)[2]);
    assert !Truthy(Candidates(o, json)[3]);
  }

  /** An absent or falsy error is reported as unknown; a non-empty string is
      returned unchanged. */
  lemma FalsyOrStringError(s: string, json: JsonRuntime)
    ensures Extract(Nothing, json) == UnknownError
    ensures Extract(Text(""), json) == UnknownError
    ensures s != "" ==> Extract(Text(s), json) == s
  {
  }

  /** An object carrying only a JSON body `{"error":{"message":m}}` yields m. */
  lemma BodyOnlyErrorYieldsBodyMessage(body: string, m: string, json: JsonRuntime)
    requires body != "" && m != ""
    requires json.parse(body) == Parsed(Some(Nested(Some(m))))
    ensures Extract(Object(ErrorObject(None, None, None, None, Some(body))), json) == m
  {
  }
}
