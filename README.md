# rust-web-server: the user-creation endpoint

This project models the one piece of logic in a small axum web server
(`src/main.rs`): the `POST /users` handler. The handler receives the request
body as an untyped JSON value, runs it through `validate_payload`, and answers
either `201 Created` with the username as a JSON string or `400 Bad Request`
with a JSON `null`. `GET /` answers a fixed greeting.

- `wrappers.dfy` (module `Wrappers`): Rust's `Option`.
- `json_value.dfy` (module `JsonValue`): the JSON tree (`serde_json::Value`)
  and the accessors the validator calls: `is_object`, `as_object`, `get`,
  `is_string` and `as_str`.
- `users.dfy` (module `Users`): the `Payload` record, `ValidatePayload`
  (`validate_payload`), `CreateUser` (the response mapping of `create_user`),
  `Root` (`root`), and the lemmas.

The data model follows the source's declarations:

- `Users.Payload` is the `Payload` struct (src/main.rs:35-37). Its one field
  `username` holds a copy of the string.
- `Users.StatusCode` is a code between 100 and 999, which is the range the
  `http` crate allows. `Users.Created` is 201 and `Users.BadRequest` is 400,
  the `StatusCode::CREATED` and `StatusCode::BAD_REQUEST` of src/main.rs:75
  and src/main.rs:71.
- `Users.Response` is the `(StatusCode, Json<Value>)` pair that `create_user`
  returns (src/main.rs:68).

`ValidatePayload` follows the source's chain of early returns one check at a
time. The second check (`as_object` coming back empty) sits in a branch that
holds `assert false`, so the verifier proves that it is never taken once
`is_object` has held. Each `unwrap` of the source is a destructor in the
model, so the verifier also shows that none of them can panic.

As an independent reference for the shape checks, `ScanFields` and
`DecodePayload` give a typed reading of the payload into the one-field
`Payload` record. The reading accepts only objects and visits their entries
one at a time. It skips unknown keys, requires `username`, and requires that
entry to be a string. It is a reference definition, not a model of any
source lines. `ValidateIsTypedDecode`
proves that this reading agrees with `ValidatePayload` on every JSON value.
The proof is an induction on the number of entries (`ScanFieldsIsLookup`).

## Model

| member | source | states |
|---|---|---|
| `JsonValue.IsObject` | src/main.rs:40 | `is_object` holds exactly when the value is an object of some map |
| `JsonValue.IsString` | src/main.rs:56 | `is_string` holds exactly when the value is a string of some contents |
| `JsonValue.AsObject` | src/main.rs:44 | `as_object` yields a map exactly for objects, and that map is the object's own |
| `JsonValue.Get` | src/main.rs:50 | `get` yields a value exactly when the key is present, and it is the stored value |
| `JsonValue.AsStr` | src/main.rs:60 | `as_str` yields a string exactly for JSON strings, and it is the string's contents |
| `JsonValue.AsObjectDefinedOnObjects` | src/main.rs:40-47 | once `is_object` holds, `as_object` returns the object's map, so the failure branch at 45-47 is unreachable |
| `JsonValue.AsStrDefinedOnStrings` | src/main.rs:56-60 | once `is_string` holds, `as_str` returns the string, so the `unwrap` at 60 cannot panic |
| `Users.ValidatePayload` | src/main.rs:39-64 | a payload is produced if and only if the value is an object with a string under `username`, and its username is that string |
| `Users.RejectsNonObject` | src/main.rs:40-42 | null, booleans, numbers, strings and arrays give `None` |
| `Users.RejectsMissingUsername` | src/main.rs:50-53 | an object without the `username` key gives `None` |
| `Users.RejectsNonStringUsername` | src/main.rs:55-58 | an object whose `username` is not a string gives `None` |
| `Users.ExtractsUsername` | src/main.rs:60-63 | an object whose `username` is the string s gives `Some(Payload(s))`, for every s including the empty one |
| `Users.AcceptsExactly` | src/main.rs:39-64 | `Some(Payload(u))` is returned if and only if the value is an object holding `Str(u)` under `username` |
| `Users.DependsOnlyOnUsername` | src/main.rs:50 | two objects that agree on the `username` entry (both lack it, or both hold the same value) validate alike |
| `Users.IgnoresOtherUpdate` | src/main.rs:50 | adding or changing an entry under any other key leaves the outcome unchanged |
| `Users.IgnoresOtherRemoval` | src/main.rs:50 | removing an entry under any other key leaves the outcome unchanged |
| `Users.Root` | src/main.rs:31-33 | `GET /` always answers the greeting `Hello, World!` |
| `Users.ScanFieldsIsLookup` | src/main.rs:50 | the reference reading `ScanFields`, which visits an object's entries one at a time, finds the `username` field as missing, as that string, or as invalid, exactly as a direct lookup does |
| `Users.ValidateIsTypedDecode` | src/main.rs:39-64 | the shape checks agree on every JSON value with the entry-by-entry typed reading into the `Payload` record |
| `Users.CreateUser` | src/main.rs:66-76 | the status is 201 or 400; 201 exactly when the payload has a string `username`; 400 carries `null`; 201 carries the `username` value itself |
| `Users.CreateUserRejects` | src/main.rs:69-72 | a failed validation gives status 400 with body `Null` |
| `Users.CreateUserAccepts` | src/main.rs:73-75 | a validation that yields username u gives status 201 with body `Str(u)` |
| `Users.ResponseDeterminesOutcome` | src/main.rs:69-75 | two payloads get the same response if and only if they validate to the same result |
| `Users.DocumentedExchanges` | src/main.rs:66-76 | `{"username":"alice"}` gives 201 and `"alice"`; `{"name":"alice"}`, `{"username":42}` and `[]` give 400 and `null` |

## Left out

- `main` (src/main.rs:10-29): the tokio runtime, the tracing subscriber, the socket address, and binding and serving. This is I/O and framework setup.
- Routing-table construction (src/main.rs:19-21): only framework calls.
- The `Json` extractor of axum, which parses the request body. Malformed JSON is rejected by the framework before `create_user` runs, and that code is not part of this model.
- The `tracing::info!` line (src/main.rs:74): a logging side effect.
- The 200 status that axum attaches to the text of `root` (src/main.rs:31-33) is framework behaviour and is not modelled.
- JSON numbers: serde_json numbers may be floats; the model gives them an integer payload because the core never inspects them.
- Lifetimes and borrowing: the source's `Payload` borrows `&str` from the JSON value; the model copies the username out as a `string`.
- Idempotence of the validator is not stated as a lemma: a Dafny function is deterministic by construction.
- The serialization of the response body to text is done by the framework and is not modelled; the body is the JSON value handed to it.
