# gas_estimator in Dafny

A model of the protocol logic of `gas_estimator`, a small Rust client that
asks an Ethereum node for `eth_estimateGas` over JSON-RPC 2.0. The model
covers:

- the JSON-RPC 2.0 request envelope that `send_rpc` builds (section 4 of the
  JSON-RPC 2.0 Specification): version `"2.0"`, the method, the positional
  parameters in order, and id `1`;
- the resolution of a decoded response envelope (sections 5 and 5.1): a
  `result` wins even when an `error` is also present, then the node's error
  object, then the `"Unknown RPC Error"` sentinel;
- the error channel. The source boxes every failure into a `Box<dyn Error>`;
  the node-side ones are boxed strings. The model keeps four cases apart
  (`Transport`, `Rpc(code, message)`, `Unknown`, `Parse`) and gives the exact
  text the source builds for the node-side ones: `"RPC Error: {code} - {message}"` and `"Unknown RPC
  Error"`. It also models `JsonRpcError`'s `Display`, `"JSON-RPC Error {code}:
  {message}"`;
- the `eth_estimateGas` parameter object: exactly `from`, `to`, `value` and
  `data`, with `data` being `"0x"` plus lower-case `hex::encode` of the
  payload;
- the reading of the node's answer: `trim_start_matches("0x")` strips every
  leading `"0x"`, not just one. `U256::from_str_radix(_, 16)` then reads the
  rest into a value below 2^256.

Modules, one per concern of `src/lib.rs`:

- `Wrappers`: `Option`, `Result`.
- `Primitives`: `Byte`, `Int64`, `UInt64`, `U256` as bounded integers.
- `Decimal`: `{}` formatting of an integer, and its inverse.
- `Hex`: byte-payload hex encoding and decoding, and base-16 numerals.
- `Errors`: the error taxonomy and its message texts.
- `JsonRpc`: envelopes, resolution, `send_rpc`.
- `GasEstimator`: `Transaction`, the parameter projection, gas parsing,
  `estimate_gas`.

The network and the foreign libraries are parameters:

- `exchange: Request -> Result<Response<T>, string>` stands for the HTTP POST
  plus the JSON decoding of the answer. A failure there carries the HTTP
  library's text and becomes `Transport`.
- `Codecs` carries `Address::to_string` and the JSON form of a `U256`.
- `edge` answers the remainders whose reading by `U256::from_str_radix` the
  visible code does not determine (see "Left out").
- `parseText` is the library's text for a parse error.

Three details of the code that the model keeps:

- `trim_start_matches("0x")` strips every leading repetition, so `"0x0x5208"`
  reads as 21000.
- `from_str_radix(_, 16)` accepts upper-case digits as well as lower-case ones.
- An upper-case `"0X"` prefix is not stripped, so `"0X5208"` fails.

## Model

| member | source | states |
|---|---|---|
| `Decimal.ParseShow` | src/lib.rs:71 | the decimal text of an error code reads back as that code |
| `Decimal.Show` | src/lib.rs:71 | `{}` of an `i64`: digits only, a leading '-' exactly when the code is negative, and no leading zero ("0" alone for zero) |
| `Decimal.ShowAtUnique` | src/lib.rs:71 | inside a text, a rendered code followed by a separator that cannot occur in a rendering is read in one way only |
| `Hex.EncodeBytes` | src/lib.rs:102 | `hex::encode` yields two lower-case hex digits per byte, so length 2n |
| `Hex.DecodeEncode` | src/lib.rs:102 | decoding the hex text of a payload gives back the payload |
| `Hex.EncodeInjective` | src/lib.rs:102 | distinct payloads have distinct hex texts |
| `Hex.NumeralValueOfNumeral` | src/lib.rs:108-111 | a base-16 numeral written for n is read back as n |
| `Errors.RpcErrorText` | src/lib.rs:71 | the text is "RPC Error: ", then the rendered code, then " - ", then the node's message, each at its stated position |
| `Errors.Describe` | src/lib.rs:64-111 | the boxed message: the HTTP library's text for Transport, "RPC Error: {code} - {message}" for a node error (never the unknown sentinel), "Unknown RPC Error" for Unknown, the library's text for Parse (the `?` at line 111) |
| `Errors.RpcErrorTextInjective` | src/lib.rs:71 | "RPC Error: {code} - {message}" preserves both code and message unchanged |
| `Errors.RpcErrorTextIsNotUnknown` | src/lib.rs:71-73 | no node error's text equals "Unknown RPC Error" |
| `Errors.DescribeSeparatesNodeOutcomes` | src/lib.rs:68-74 | the boxed message alone tells an error object (with its code and message) from the unknown error |
| `JsonRpc.DisplayRpcError` | src/lib.rs:41-45 | the text is "JSON-RPC Error ", then the rendered code, then ": ", then the message, each at its stated position |
| `JsonRpc.DisplayRpcErrorInjective` | src/lib.rs:41-45 | "JSON-RPC Error {code}: {message}" determines the error object |
| `JsonRpc.MakeRequest` | src/lib.rs:53-58 | the envelope has version "2.0", id 1, and the method and parameters unchanged and in order |
| `JsonRpc.MakeRequestInjective` | src/lib.rs:53-58 | the envelope loses neither the method nor any parameter |
| `JsonRpc.Resolve` | src/lib.rs:68-74 | success exactly when a result is present, with that value. Otherwise an error object gives Rpc with its code and message. Unknown exactly when both are absent. Never a Transport or Parse error |
| `JsonRpc.ResolveWellBehaved` | src/lib.rs:68-74 | on a response with exactly one of result and error, resolution gives back what the node sent |
| `JsonRpc.ResultTakesPriority` | src/lib.rs:68-69 | a response with both a result and an error resolves to the result |
| `JsonRpc.SendRpc` | src/lib.rs:47-74 | a Transport error exactly when the exchange fails, with its text; otherwise the resolution of the node's answer to the built envelope |
| `GasEstimator.DataField` | src/lib.rs:102 | `data` is "0x" followed by lower-case hex, of length 2 + 2n; an empty payload gives exactly "0x" |
| `GasEstimator.DataFieldRoundTrip` | src/lib.rs:102 | the hex body of `data` decodes to the payload |
| `GasEstimator.EstimateGasParams` | src/lib.rs:97-104 | the object's keys are exactly from, to, value and data; from and to hold the rendered addresses, value the quantity, and data is the `DataField` of the payload ("0x" plus lower-case hex), which decodes back |
| `GasEstimator.EstimateGasRequest` | src/lib.rs:106 | method "eth_estimateGas" with the parameter object as the sole parameter, version "2.0", id 1 |
| `GasEstimator.RequestIgnoresUnusedFields` | src/lib.rs:97-106 | nonce, gas_price, gas_limit, v, r and s never affect the request |
| `GasEstimator.RequestKeepsPayload` | src/lib.rs:102-106 | transactions with different payloads send different requests |
| `GasEstimator.TrimLeading0x` | src/lib.rs:109 | the remainder never starts with "0x" |
| `GasEstimator.TrimRepeated` | src/lib.rs:109 | any number of leading "0x" are all stripped, and nothing after them |
| `GasEstimator.TrimStripsOnly0x` | src/lib.rs:109 | the input is some number of "0x" followed by the remainder |
| `GasEstimator.FromHexRadix` | src/lib.rs:108-111 | outside the library-defined remainders: success exactly on hex digits of a value below 2^256, giving that value; Overflow at 2^256 or more; the library-defined ones are answered by `edge` |
| `GasEstimator.ParseGas` | src/lib.rs:108-111 | after stripping every leading "0x", success exactly when the remainder is hex digits of a value below 2^256, giving that value; Overflow at 2^256 or more |
| `GasEstimator.ParseGasReadsQuantity` | src/lib.rs:108-111 | "0x"* followed by hex digits reads as their value when below 2^256, and fails with Overflow otherwise |
| `GasEstimator.ParseGasRoundTrip` | src/lib.rs:108-111 | "0x" plus the numeral of any U256 reads back as that value |
| `GasEstimator.ParseGasRejectsNonHex` | src/lib.rs:108-111 | a remainder with a character outside the hex alphabet fails, never reading as zero |
| `GasEstimator.NumeralOf21000` | src/lib.rs:139-142 | "5208" denotes 21000 |
| `GasEstimator.ParseGasExamples` | src/lib.rs:108-111 | "0x5208" and "0x0x5208" both read as 21000 |
| `GasEstimator.ParseGasRejectionExamples` | src/lib.rs:109 | "0X5208" (upper-case prefix not stripped) and "not-a-hex-string" fail |
| `GasEstimator.EstimateGas` | src/lib.rs:92-112 | each outcome by the node's answer to its one request: Transport with its text, the error object's code and message unchanged, Unknown, or the reading of the result; a Parse error exactly when a result was returned and could not be read |
| `GasEstimator.EstimateGasIgnoresUnusedFields` | src/lib.rs:97-106 | the estimate does not depend on nonce, gas_price, gas_limit, v, r, s |
| `GasEstimator.EthTransferScenario` | src/lib.rs:119-144 | an empty-payload transfer answered with "0x5208" sends data "0x" and estimates 21000 |
| `GasEstimator.NodeErrorScenario` | src/lib.rs:70-71 | error -32000 "insufficient funds" from the node surfaces as Rpc(-32000, "insufficient funds") |
| `GasEstimator.NodeErrorText` | src/lib.rs:71 | the message of that error is exactly "RPC Error: -32000 - insufficient funds" |
| `GasEstimator.EmptyAnswerScenario` | src/lib.rs:72-73 | an answer with neither result nor error is the Unknown error |
| `GasEstimator.GarbageResultScenario` | src/lib.rs:108-111 | a result "not-a-hex-string" is a Parse error, not a value and not a node-side error |

A parse success is below 2^256 by its type, `U256`.

## Left out

- HTTP: the POST, `.send().await` and `.json().await` (src/lib.rs:52, 60-66) are I/O and async. They are the `exchange` parameter, and any failure there is the opaque `Transport` error.
- serde: the JSON serialization of the request and the deserialization of the response are library behaviour. The decoded envelope is given as a datatype, and the parameter object's key order is not modelled (it is a `map`).
- alloy: `Address::to_string` (checksummed text) and the serde form of `U256` are not visible. They are the `Codecs` parameter, so the address and quantity round trips are not modelled.
- `U256::from_str_radix` on the empty remainder (for example the answer `"0x"`) and on remainders containing `_` is library-defined. The `edge` parameter answers those cases, and no property is claimed about them.
- `GasEstimator.ParseGasRejectsNonHex`: when a remainder both holds a non-hex character and is too long for 256 bits, the model reports `InvalidDigit`. The lemma claims only a parse failure, because which kind the library reports is not visible.
- The text of the library's parse error is the `parseText` parameter of `Errors.Describe`.
- The endpoint's configuration (the key and the `lazy_static` URL, src/lib.rs:14-18) is configuration, not logic. The endpoint is implicit in `exchange`.
- The live-network test (src/lib.rs:119-144) is not modelled as such. Its expectation of 21000 is `GasEstimator.EthTransferScenario`.
