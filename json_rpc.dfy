/**
 * The JSON-RPC 2.0 transport layer of the client (`send_rpc`): the request
 * object of section 4 of the JSON-RPC 2.0 Specification, the response and
 * error objects of sections 5 and 5.1, and the way a decoded response is
 * turned into a result or an error. The HTTP round trip is the parameter
 * `exchange`.
 */
module JsonRpc {
  import opened Wrappers
  import opened Primitives
  import opened Errors
  import Decimal

  /** A JSON value, the type of the positional parameters. */
  datatype Json =
    | JNull
    | JBool(b: bool)
    | JNumber(n: int)
    | JString(s: string)
    | JArray(items: seq<Json>)
    | JObject(fields: map<string, Json>)

  const VERSION: string := "2.0"
  const REQUEST_ID: UInt64 := 1

  /** `JsonRpcRequest`. */
  datatype Request = Request(jsonrpc: string, methodName: string, params: seq<Json>, id: UInt64)

  /** `JsonRpcError`: the error object a node sends. */
  datatype RpcError = RpcError(code: Int64, message: string)

  /** `JsonRpcResponse<T>`, as decoded from the body of the HTTP answer. */
  datatype Response<T> = Response(result: Option<T>, error: Option<RpcError>)

  /**
   * One HTTP POST of a request and the decoding of the answer's body: either
   * the decoded envelope or the HTTP library's error text.
   */
  type Exchange<T> = Request -> Result<Response<T>, string>

  /** `JsonRpcError`'s `Display`: "JSON-RPC Error {code}: {message}". */
  function DisplayRpcError(e: RpcError): (s: string)
    ensures |s| == 17 + |Decimal.Show(e.code)| + |e.message| && s[..15] == "JSON-RPC Error "
    ensures s[15..15 + |Decimal.Show(e.code)|] == Decimal.Show(e.code)
    ensures s[15 + |Decimal.Show(e.code)|..17 + |Decimal.Show(e.code)|] == ": "
    ensures s[17 + |Decimal.Show(e.code)|..] == e.message
  {
    "JSON-RPC Error " + Decimal.Show(e.code) + ": " + e.message
  }

  /** The displayed text of an error object gives back the object. */
  lemma DisplayRpcErrorInjective(e1: RpcError, e2: RpcError)
    requires DisplayRpcError(e1) == DisplayRpcError(e2)
    ensures e1 == e2
  {
    var s := DisplayRpcError(e1);
    var l1, l2 := |Decimal.Show(e1.code)|, |Decimal.Show(e2.code)|;
    assert s[15 + l1] == s[15 + l1..17 + l1][0] == ':';
    assert s[15 + l2] == s[15 + l2..17 + l2][0] == ':';
    Decimal.ShowAtUnique(s, 15, e1.code, e2.code);
  }

  /** The envelope `send_rpc` posts: version "2.0", the method name, the parameters in order, id 1. */
  function MakeRequest(methodName: string, params: seq<Json>): (r: Request)
    ensures r.jsonrpc == VERSION && r.id == REQUEST_ID
    ensures r.methodName == methodName && r.params == params
  {
    Request(VERSION, methodName, params, REQUEST_ID)
  }

  /** Requests for different calls differ: the envelope loses neither the method name nor any parameter. */
  lemma MakeRequestInjective(m1: string, p1: seq<Json>, m2: string, p2: seq<Json>)
    requires MakeRequest(m1, p1) == MakeRequest(m2, p2)
    ensures m1 == m2 && p1 == p2
  {
  }

  /**
   * The resolution chain of `send_rpc`: a result wins, then an error object,
   * then the unknown error.
   */
  function Resolve<T>(resp: Response<T>): (r: Result<T, Error>)
    ensures r.Success? <==> resp.result.Some?
    ensures r.Success? ==> r.value == resp.result.value
    ensures r.Failure? ==> r.error.Rpc? || r.error.Unknown?
    ensures r.Failure? && r.error.Rpc? <==> resp.result.None? && resp.error.Some?
    ensures r.Failure? && r.error.Rpc? ==> resp.error == Some(RpcError(r.error.code, r.error.message))
    ensures r == Failure(Unknown) <==> resp.result.None? && resp.error.None?
  {
    match resp.result
    case Some(result) => Success(result)
    case None =>
      match resp.error
      case Some(error) => Failure(Rpc(error.code, error.message))
      case None => Failure(Unknown)
  }

  /** What a well-behaved node sends: exactly one of a result and an error object. */
  function WellBehavedResponse<T>(outcome: Result<T, RpcError>): (resp: Response<T>)
    ensures resp.result.Some? != resp.error.Some?
  {
    match outcome
    case Success(v) => Response(Some(v), None)
    case Failure(e) => Response(None, Some(e))
  }

  /** On a well-behaved response, resolution gives back what the node meant. */
  lemma ResolveWellBehaved<T>(outcome: Result<T, RpcError>)
    ensures Resolve(WellBehavedResponse(outcome)) ==
      match outcome
      case Success(v) => Success(v)
      case Failure(e) => Failure(Rpc(e.code, e.message))
  {
  }

  /** A response carrying both a result and an error object resolves to the result. */
  lemma ResultTakesPriority<T>(v: T, e: RpcError)
    ensures Resolve(Response(Some(v), Some(e))) == Success(v)
  {
  }

  /** `send_rpc`: post `MakeRequest(methodName, params)`, then resolve the decoded answer. */
  function SendRpc<T>(methodName: string, params: seq<Json>, exchange: Exchange<T>): (r: Result<T, Error>)
    ensures r.Failure? && r.error.Transport? <==> exchange(MakeRequest(methodName, params)).Failure?
    ensures exchange(MakeRequest(methodName, params)).Failure? ==>
      r.error.detail == exchange(MakeRequest(methodName, params)).error
    ensures exchange(MakeRequest(methodName, params)).Success? ==>
      r == Resolve(exchange(MakeRequest(methodName, params)).value)
  {
    match exchange(MakeRequest(methodName, params))
    case Failure(detail) => Failure(Transport(detail))
    case Success(resp) => Resolve(resp)
  }
}
