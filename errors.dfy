/**
 * The error channel of the client. The source boxes every failure into a
 * `Box<dyn Error>` whose only observable is its message; here the four
 * layers that can fail stay apart, and `Describe` gives the message text
 * each one carries.
 */
module Errors {
  import Decimal
  import opened Primitives

  /** Why a gas quantity could not be read as a `U256`. */
  datatype ParseError = InvalidDigit | Overflow

  datatype Error =
    | Transport(detail: string)       // the HTTP exchange or the decoding of its body failed
    | Rpc(code: Int64, message: string) // the node answered with an error object
    | Unknown                         // the node answered with neither a result nor an error
    | Parse(kind: ParseError)         // the node's result is not a 256-bit hex quantity

  const UNKNOWN_RPC_ERROR: string := "Unknown RPC Error"

  /** The message built for an error object from the node: "RPC Error: {code} - {message}". */
  function RpcErrorText(code: int, message: string): (s: string)
    ensures |s| == 14 + |Decimal.Show(code)| + |message| && s[..11] == "RPC Error: "
    ensures s[11..11 + |Decimal.Show(code)|] == Decimal.Show(code)
    ensures s[11 + |Decimal.Show(code)|..14 + |Decimal.Show(code)|] == " - "
    ensures s[14 + |Decimal.Show(code)|..] == message
  {
    "RPC Error: " + Decimal.Show(code) + " - " + message
  }

  /**
   * The message of the boxed error. Transport failures carry the HTTP
   * library's own text; the text of a parse failure belongs to the integer
   * library and is supplied as `parseText`.
   */
  function Describe(e: Error, parseText: ParseError -> string): (s: string)
    ensures e.Transport? ==> s == e.detail
    ensures e.Rpc? ==> s == RpcErrorText(e.code, e.message) && s != UNKNOWN_RPC_ERROR
    ensures e.Unknown? ==> s == UNKNOWN_RPC_ERROR
    ensures e.Parse? ==> s == parseText(e.kind)
  {
    match e
    case Transport(detail) => detail
    case Rpc(code, message) => RpcErrorTextIsNotUnknown(code, message); RpcErrorText(code, message)
    case Unknown => UNKNOWN_RPC_ERROR
    case Parse(kind) => parseText(kind)
  }

  /** The message of a node error gives back its code and its message unchanged. */
  lemma RpcErrorTextInjective(c1: int, m1: string, c2: int, m2: string)
    requires RpcErrorText(c1, m1) == RpcErrorText(c2, m2)
    ensures c1 == c2 && m1 == m2
  {
    var s := RpcErrorText(c1, m1);
    var l1, l2 := |Decimal.Show(c1)|, |Decimal.Show(c2)|;
    assert s[11 + l1] == s[11 + l1..14 + l1][0] == ' ';
    assert s[11 + l2] == s[11 + l2..14 + l2][0] == ' ';
    Decimal.ShowAtUnique(s, 11, c1, c2);
  }

  /** No node error reads as the unknown-error sentinel. */
  lemma RpcErrorTextIsNotUnknown(code: int, message: string)
    ensures RpcErrorText(code, message) != UNKNOWN_RPC_ERROR
  {
    assert RpcErrorText(code, message)[4] == 'E';
    assert UNKNOWN_RPC_ERROR[4] == 'o';
  }

  /**
   * On the node-side outcomes the message alone tells which one happened:
   * an error object (with its code and message) or the unknown error.
   */
  lemma DescribeSeparatesNodeOutcomes(e1: Error, e2: Error, parseText: ParseError -> string)
    requires e1.Rpc? || e1.Unknown?
    requires e2.Rpc? || e2.Unknown?
    requires Describe(e1, parseText) == Describe(e2, parseText)
    ensures e1 == e2
  {
    if e1.Rpc? && e2.Rpc? {
      RpcErrorTextInjective(e1.code, e1.message, e2.code, e2.message);
    }
  }
}
