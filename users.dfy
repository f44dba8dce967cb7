/**
 * The user-creation endpoint of the web server: the payload validator and the
 * mapping of its outcome to an HTTP status and a JSON body.
 */
module Users {
  import opened Wrappers
  import opened JsonValue

  /** `root`, the handler of `GET /`: the same greeting on every call. */
  function Root(): (greeting: string)
    ensures greeting == "Hello, World!"
  {
    "Hello, World!"
  }

  /** The only key the validator looks at. */
  const UsernameKey: string := "username"

  /** The validated request: the username copied out of the JSON value. */
  datatype Payload = Payload(username: string)

  /** An HTTP status code, as the `http` crate bounds it. */
  newtype StatusCode = c: int | 100 <= c <= 999 witness 200

  const Created: StatusCode := 201
  const BadRequest: StatusCode := 400

  datatype Response = Response(status: StatusCode, body: Json)

  /**
   * The shape the validator accepts: an object whose `username` entry is a
   * JSON string.
   */
  predicate HasStringUsername(v: Json) {
    v.Obj? && UsernameKey in v.fields && v.fields[UsernameKey].Str?
  }

  /**
   * `validate_payload`: a chain of shape checks with early returns. Each
   * `unwrap` of the source is a destructor here, so the verifier shows that
   * none of them can fail.
   */
  function ValidatePayload(payload: Json): (r: Option<Payload>)
    ensures r.Some? <==> HasStringUsername(payload)
    ensures r.Some? ==> payload.fields[UsernameKey] == Str(r.value.username)
  {
    if !IsObject(payload) then None
    else
      var payloadObject := AsObject(payload);
      if !payloadObject.Some? then
        // Never taken: `as_object` succeeds on every object.
        assert false; None
      else
        var payloadSome := payloadObject.value;
        var username := Get(payloadSome, UsernameKey);
        if !username.Some? then None
        else
          var usernameSome := username.value;
          if !IsString(usernameSome) then None
          else Some(Payload(AsStr(usernameSome).value))
  }

  /** The response `create_user` builds from the validator's outcome. */
  function CreateUser(payload: Json): (resp: Response)
    ensures resp.status == Created || resp.status == BadRequest
    ensures resp.status == Created <==> HasStringUsername(payload)
    ensures resp.status == BadRequest ==> resp.body == Null
    ensures resp.status == Created ==> resp.body == payload.fields[UsernameKey]
  {
    var result := ValidatePayload(payload);
    if result.None? then Response(BadRequest, Null)
    else Response(Created, Str(result.value.username))
  }

  // ---------------------------------------------------------------------
  // Properties of the validator
  // ---------------------------------------------------------------------

  /** Null, booleans, numbers, strings and arrays are all rejected. */
  lemma RejectsNonObject(v: Json)
    requires !v.Obj?
    ensures ValidatePayload(v) == None
  {
  }

  /** An object without a `username` key is rejected. */
  lemma RejectsMissingUsername(m: map<string, Json>)
    requires UsernameKey !in m
    ensures ValidatePayload(Obj(m)) == None
  {
  }

  /** An object whose `username` is null, a boolean, a number, an array or an object is rejected. */
  lemma RejectsNonStringUsername(m: map<string, Json>)
    requires UsernameKey in m && !m[UsernameKey].Str?
    ensures ValidatePayload(Obj(m)) == None
  {
  }

  /** A string `username` is accepted and extracted exactly, the empty string included. */
  lemma ExtractsUsername(m: map<string, Json>, s: string)
    requires UsernameKey in m && m[UsernameKey] == Str(s)
    ensures ValidatePayload(Obj(m)) == Some(Payload(s))
  {
  }

  /**
   * A payload is produced exactly when the value is an object holding a
   * string under `username`, and then it holds that string.
   */
  lemma AcceptsExactly(v: Json, u: string)
    ensures ValidatePayload(v) == Some(Payload(u)) <==>
            exists m :: v == Obj(m) && UsernameKey in m && m[UsernameKey] == Str(u)
  {
  }

  /** Only the `username` entry is consulted: two objects that agree on it validate alike. */
  lemma DependsOnlyOnUsername(m: map<string, Json>, m': map<string, Json>)
    requires UsernameKey in m <==> UsernameKey in m'
    requires UsernameKey in m ==> m[UsernameKey] == m'[UsernameKey]
    ensures ValidatePayload(Obj(m)) == ValidatePayload(Obj(m'))
  {
  }

  /** Adding or changing an entry other than `username` changes nothing. */
  lemma IgnoresOtherUpdate(m: map<string, Json>, k: string, x: Json)
    requires k != UsernameKey
    ensures ValidatePayload(Obj(m[k := x])) == ValidatePayload(Obj(m))
  {
  }

  /** Removing an entry other than `username` changes nothing. */
  lemma IgnoresOtherRemoval(m: map<string, Json>, k: string)
    requires k != UsernameKey
    ensures ValidatePayload(Obj(m - {k})) == ValidatePayload(Obj(m))
  {
  }

  // ---------------------------------------------------------------------
  // A reference reading of the payload, entry by entry
  // ---------------------------------------------------------------------

  /** What a reading of an object's entries has found about the `username` field. */
  datatype FieldState = Missing | Found(username: string) | Invalid

  /** Some key of a non-empty object; the order of the visit does not matter. */
  ghost function PickKey(m: map<string, Json>): (k: string)
    requires m != map[]
    ensures k in m
  {
    var k :| k in m; k
  }

  /**
   * An independent reference for the shape checks: a typed reading of an
   * object's entries, one at a time, into the one-field `Payload` record. It
   * accepts only objects, skips every entry under another key, requires the
   * `username` entry to be a string, and leaves a record whose field was
   * never seen incomplete. A map holds each key once, so no duplicate
   * `username` entry can arise.
   */
  ghost function ScanFields(m: map<string, Json>): (st: FieldState)
    decreases |m|
  {
    if m == map[] then Missing
    else
      var k := PickKey(m);
      var rest := ScanFields(m - {k});
      if k != UsernameKey then rest
      else match m[k]
        case Str(s) => Found(s)
        case _ => Invalid
  }

  /** The typed reading of a whole payload: only objects can become a `Payload`. */
  ghost function DecodePayload(v: Json): Option<Payload> {
    match v
    case Obj(m) =>
      (match ScanFields(m)
       case Found(u) => Some(Payload(u))
       case _ => None)
    case _ => None
  }

  /** The entry-by-entry reading finds the `username` field exactly as a lookup does. */
  lemma {:induction false} ScanFieldsIsLookup(m: map<string, Json>)
    ensures ScanFields(m) ==
            if UsernameKey !in m then Missing
            else if m[UsernameKey].Str? then Found(m[UsernameKey].s)
            else Invalid
    decreases |m|
  {
    if m != map[] {
      var k := PickKey(m);
      ScanFieldsIsLookup(m - {k});
    }
  }

  /** The shape checks of the validator agree with the typed reading on every value. */
  lemma ValidateIsTypedDecode(v: Json)
    ensures ValidatePayload(v) == DecodePayload(v)
  {
    if v.Obj? {
      ScanFieldsIsLookup(v.fields);
    }
  }

  // ---------------------------------------------------------------------
  // Properties of the response mapping
  // ---------------------------------------------------------------------

  /** A rejected payload gives 400 with a null body. */
  lemma CreateUserRejects(v: Json)
    requires ValidatePayload(v).None?
    ensures CreateUser(v) == Response(BadRequest, Null)
  {
  }

  /** An accepted payload gives 201 with the username re-encoded as a JSON string. */
  lemma CreateUserAccepts(v: Json, u: string)
    requires ValidatePayload(v) == Some(Payload(u))
    ensures CreateUser(v) == Response(Created, Str(u))
  {
  }

  /** The response loses nothing: two payloads get the same response exactly when they validate alike. */
  lemma ResponseDeterminesOutcome(v: Json, w: Json)
    ensures CreateUser(v) == CreateUser(w) <==> ValidatePayload(v) == ValidatePayload(w)
  {
  }

  /** The four request bodies of the endpoint's documented exchanges. */
  lemma DocumentedExchanges()
    ensures CreateUser(Obj(map["username" := Str("alice")])) == Response(Created, Str("alice"))
    ensures CreateUser(Obj(map["name" := Str("alice")])) == Response(BadRequest, Null)
    ensures CreateUser(Obj(map["username" := Number(42)])) == Response(BadRequest, Null)
    ensures CreateUser(Arr([])) == Response(BadRequest, Null)
  {
  }
}
