/**
 * `estimate_gas`: project a transaction onto the parameter object of
 * `eth_estimateGas`, ask the node through `send_rpc`, and read the hex
 * quantity it answers as a `U256`.
 */
module GasEstimator {
  import opened Wrappers
  import opened Primitives
  import opened Errors
  import opened JsonRpc
  import Hex
  import Decimal

  /** alloy's `Address`: 20 bytes. */
  type Address = a: seq<Byte> | |a| == 20 witness seq(20, i => 0)

  /** The transaction value object; `from` has already been recovered from `v`, `r`, `s`. */
  datatype Transaction = Transaction(
    nonce: U256,
    gasPrice: Option<U256>,
    gasLimit: U256,
    from: Address,
    to: Address,
    value: U256,
    data: seq<Byte>,
    v: UInt64,  // recovery id
    r: U256,
    s: U256)

  /**
   * The renderings the projection takes from alloy: the checksummed text of
   * an address (`Address::to_string`) and the JSON form of a `U256`.
   */
  datatype Codecs = Codecs(addressText: Address -> string, quantityJson: U256 -> Json)

  const ESTIMATE_GAS: string := "eth_estimateGas"

  // The request

  /** The `data` field: "0x" and two lower-case hex digits per byte. */
  function DataField(data: seq<Byte>): (s: string)
    ensures |s| == 2 + 2 * |data|
    ensures s[..2] == "0x" && Hex.AllLowerHexDigits(s[2..])
    ensures data == [] ==> s == "0x"
  {
    "0x" + Hex.EncodeBytes(data)
  }

  /** The hex body of the `data` field decodes to the payload. */
  lemma DataFieldRoundTrip(data: seq<Byte>)
    ensures Hex.DecodeBytes(DataField(data)[2..]) == Some(data)
  {
    assert DataField(data)[2..] == Hex.EncodeBytes(data);
    Hex.DecodeEncode(data);
  }

  /** The parameter object: `from`, `to`, `value` and `data`, and nothing else. */
  function EstimateGasParams(tx: Transaction, codecs: Codecs): (p: Json)
    ensures p.JObject? && p.fields.Keys == {"from", "to", "value", "data"}
    ensures p.fields["from"] == JString(codecs.addressText(tx.from))
    ensures p.fields["to"] == JString(codecs.addressText(tx.to))
    ensures p.fields["value"] == codecs.quantityJson(tx.value)
    ensures p.fields["data"] == JString(DataField(tx.data))
    ensures Hex.DecodeBytes(p.fields["data"].s[2..]) == Some(tx.data)
  {
    DataFieldRoundTrip(tx.data);
    JObject(map[
      "from" := JString(codecs.addressText(tx.from)),
      "to" := JString(codecs.addressText(tx.to)),
      "value" := codecs.quantityJson(tx.value),
      "data" := JString(DataField(tx.data))])
  }

  /** The request `estimate_gas` posts: the parameter object is the sole parameter. */
  function EstimateGasRequest(tx: Transaction, codecs: Codecs): (req: Request)
    ensures req.jsonrpc == VERSION && req.id == REQUEST_ID && req.methodName == ESTIMATE_GAS
    ensures req.params == [EstimateGasParams(tx, codecs)]
  {
    MakeRequest(ESTIMATE_GAS, [EstimateGasParams(tx, codecs)])
  }

  /** `nonce`, `gas_price`, `gas_limit`, `v`, `r` and `s` never reach the node. */
  lemma RequestIgnoresUnusedFields(tx1: Transaction, tx2: Transaction, codecs: Codecs)
    requires tx1.from == tx2.from && tx1.to == tx2.to
    requires tx1.value == tx2.value && tx1.data == tx2.data
    ensures EstimateGasRequest(tx1, codecs) == EstimateGasRequest(tx2, codecs)
  {
  }

  /** Transactions with different payloads give different requests. */
  lemma RequestKeepsPayload(tx1: Transaction, tx2: Transaction, codecs: Codecs)
    requires EstimateGasRequest(tx1, codecs) == EstimateGasRequest(tx2, codecs)
    ensures tx1.data == tx2.data
  {
  }

  // The answer

  predicate StartsWith0x(s: string) {
    |s| >= 2 && s[0] == '0' && s[1] == 'x'
  }

  /** `k` copies of "0x". */
  function Repeat0x(k: nat): string {
    if k == 0 then "" else "0x" + Repeat0x(k - 1)
  }

  /** `trim_start_matches("0x")`: strips "0x" as long as the text starts with it. */
  function TrimLeading0x(s: string): (r: string)
    ensures !StartsWith0x(r)
    decreases |s|
  {
    if StartsWith0x(s) then TrimLeading0x(s[2..]) else s
  }

  /** Every leading "0x" goes, and nothing after them. */
  lemma {:induction false} TrimRepeated(k: nat, rest: string)
    requires !StartsWith0x(rest)
    ensures TrimLeading0x(Repeat0x(k) + rest) == rest
  {
    if k > 0 {
      var s := Repeat0x(k) + rest;
      assert s == "0x" + (Repeat0x(k - 1) + rest);
      assert s[2..] == Repeat0x(k - 1) + rest;
      TrimRepeated(k - 1, rest);
    }
  }

  /** What is stripped is a run of "0x" and nothing else. */
  lemma {:induction false} TrimStripsOnly0x(s: string)
    ensures exists k: nat :: s == Repeat0x(k) + TrimLeading0x(s)
    decreases |s|
  {
    if StartsWith0x(s) {
      TrimStripsOnly0x(s[2..]);
      var k: nat :| s[2..] == Repeat0x(k) + TrimLeading0x(s[2..]);
      assert s == Repeat0x(k + 1) + TrimLeading0x(s);
    } else {
      assert s == Repeat0x(0) + TrimLeading0x(s);
    }
  }

  /**
   * Remainders whose reading `U256::from_str_radix` settles in ways the
   * visible code does not show: the empty one and those with a '_'.
   */
  predicate LibraryDefined(rem: string) {
    rem == [] || '_' in rem
  }

  /**
   * `U256::from_str_radix(rem, 16)`: a non-empty run of hex digits of either
   * case below 2^256 is read as its value; a non-digit or a value of 2^256 or
   * more fails. The library-defined remainders are answered by `edge`.
   */
  function FromHexRadix(rem: string, edge: string -> Result<U256, ParseError>): (r: Result<U256, ParseError>)
    ensures LibraryDefined(rem) ==> r == edge(rem)
    ensures !LibraryDefined(rem) ==> (r.Success? <==> Hex.AllHexDigits(rem) && Hex.NumeralValue(rem) < TWO_256)
    ensures !LibraryDefined(rem) && r.Success? ==> r.value == Hex.NumeralValue(rem)
    ensures !LibraryDefined(rem) && Hex.AllHexDigits(rem) && Hex.NumeralValue(rem) >= TWO_256 ==> r == Failure(Overflow)
  {
    if LibraryDefined(rem) then edge(rem)
    else if !Hex.AllHexDigits(rem) then Failure(InvalidDigit)
    else if Hex.NumeralValue(rem) < TWO_256 then Success(Hex.NumeralValue(rem))
    else Failure(Overflow)
  }

  /**
   * `estimate_gas`'s reading of the node's answer: strip the leading "0x"s,
   * then read base 16. Outside the library-defined remainders it succeeds
   * exactly on hex digits of a value below 2^256, and gives that value.
   */
  function ParseGas(s: string, edge: string -> Result<U256, ParseError>): (r: Result<U256, ParseError>)
    ensures var rem := TrimLeading0x(s);
      !LibraryDefined(rem) ==>
        && (r.Success? <==> Hex.AllHexDigits(rem) && Hex.NumeralValue(rem) < TWO_256)
        && (r.Success? ==> r.value == Hex.NumeralValue(rem))
        && (Hex.AllHexDigits(rem) && Hex.NumeralValue(rem) >= TWO_256 ==> r == Failure(Overflow))
  {
    FromHexRadix(TrimLeading0x(s), edge)
  }

  /**
   * Any number of "0x" followed by hex digits reads as the digits' value when
   * it is below 2^256, and fails with an overflow otherwise.
   */
  lemma ParseGasReadsQuantity(k: nat, digits: string, edge: string -> Result<U256, ParseError>)
    requires |digits| > 0 && Hex.AllHexDigits(digits)
    ensures ParseGas(Repeat0x(k) + digits, edge) ==
      if Hex.NumeralValue(digits) < TWO_256 then Success(Hex.NumeralValue(digits)) else Failure(Overflow)
  {
    assert |digits| > 1 ==> Hex.IsHexDigit(digits[1]);
    TrimRepeated(k, digits);
    assert digits[0] != '_';
    assert forall i :: 0 <= i < |digits| ==> digits[i] != '_';
  }

  /** The parser reads back every quantity a node writes as "0x" and its numeral. */
  lemma ParseGasRoundTrip(n: U256, edge: string -> Result<U256, ParseError>)
    ensures ParseGas("0x" + Hex.Numeral(n), edge) == Success(n)
  {
    Hex.NumeralValueOfNumeral(n);
    assert Repeat0x(1) + Hex.Numeral(n) == "0x" + Hex.Numeral(n);
    ParseGasReadsQuantity(1, Hex.Numeral(n), edge);
  }

  /** A remainder with a character outside the hex alphabet fails; it is never read as zero. */
  lemma ParseGasRejectsNonHex(s: string, edge: string -> Result<U256, ParseError>)
    requires !LibraryDefined(TrimLeading0x(s))
    requires !Hex.AllHexDigits(TrimLeading0x(s))
    ensures ParseGas(s, edge).Failure?
  {
  }

  /** "5208" is the numeral of 21000. */
  lemma NumeralOf21000()
    ensures Hex.AllHexDigits("5208") && Hex.NumeralValue("5208") == 21000
  {
    assert "5208"[..3] == "520" && "520"[..2] == "52" && "52"[..1] == "5" && "5"[..0] == "";
    assert Hex.NumeralValue("5") == 5;
    assert Hex.NumeralValue("52") == 82;
    assert Hex.NumeralValue("520") == 1312;
  }

  /** The answer of the source's test, "0x5208", reads as 21000, and so does "0x0x5208". */
  lemma ParseGasExamples(edge: string -> Result<U256, ParseError>)
    ensures ParseGas("0x5208", edge) == Success(21000)
    ensures ParseGas("0x0x5208", edge) == Success(21000)
  {
    NumeralOf21000();
    assert "0x5208" == Repeat0x(1) + "5208";
    assert "0x0x5208" == Repeat0x(2) + "5208";
    ParseGasReadsQuantity(1, "5208", edge);
    ParseGasReadsQuantity(2, "5208", edge);
  }

  /** An upper-case "0X" is not stripped, and free text is not a quantity. */
  lemma ParseGasRejectionExamples(edge: string -> Result<U256, ParseError>)
    ensures ParseGas("0X5208", edge).Failure?
    ensures ParseGas("not-a-hex-string", edge).Failure?
  {
  }

  // The whole call

  /**
   * `estimate_gas`, with the node's HTTP answer given by `exchange`. Every
   * outcome follows from the answer to its one request: a transport failure
   * with its text, the node's error object unchanged, the unknown error, or
   * the reading of the result, whose failure is a parse error.
   */
  function EstimateGas(
    tx: Transaction, codecs: Codecs,
    exchange: Exchange<string>, edge: string -> Result<U256, ParseError>): (r: Result<U256, Error>)
    ensures var answer := exchange(EstimateGasRequest(tx, codecs));
      && (answer.Failure? ==> r == Failure(Transport(answer.error)))
      && (answer.Success? && answer.value.result.Some? ==>
            r == match ParseGas(answer.value.result.value, edge)
                 case Success(v) => Success(v)
                 case Failure(kind) => Failure(Parse(kind)))
      && (answer.Success? && answer.value.result.None? && answer.value.error.Some? ==>
            r == Failure(Rpc(answer.value.error.value.code, answer.value.error.value.message)))
      && (answer.Success? && answer.value.result.None? && answer.value.error.None? ==>
            r == Failure(Unknown))
    ensures r.Failure? && r.error.Parse? <==>
      exchange(EstimateGasRequest(tx, codecs)).Success? &&
      exchange(EstimateGasRequest(tx, codecs)).value.result.Some? &&
      ParseGas(exchange(EstimateGasRequest(tx, codecs)).value.result.value, edge).Failure?
  {
    match SendRpc(ESTIMATE_GAS, [EstimateGasParams(tx, codecs)], exchange)
    case Failure(e) => Failure(e)
    case Success(gas) =>
      match ParseGas(gas, edge)
      case Failure(kind) => Failure(Parse(kind))
      case Success(v) => Success(v)
  }

  /** The unused fields of the transaction do not change the estimate. */
  lemma EstimateGasIgnoresUnusedFields(
    tx1: Transaction, tx2: Transaction, codecs: Codecs,
    exchange: Exchange<string>, edge: string -> Result<U256, ParseError>)
    requires tx1.from == tx2.from && tx1.to == tx2.to
    requires tx1.value == tx2.value && tx1.data == tx2.data
    ensures EstimateGas(tx1, codecs, exchange, edge) == EstimateGas(tx2, codecs, exchange, edge)
  {
  }

  /** A plain transfer (empty payload) answered with "0x5208" estimates 21000. */
  lemma EthTransferScenario(
    tx: Transaction, codecs: Codecs,
    exchange: Exchange<string>, edge: string -> Result<U256, ParseError>)
    requires tx.data == []
    requires exchange(EstimateGasRequest(tx, codecs)) == Success(Response(Some("0x5208"), None))
    ensures EstimateGasParams(tx, codecs).fields["data"] == JString("0x")
    ensures EstimateGas(tx, codecs, exchange, edge) == Success(21000)
  {
    ParseGasExamples(edge);
  }

  /** A node error surfaces with its code and message unchanged. */
  lemma NodeErrorScenario(
    tx: Transaction, codecs: Codecs,
    exchange: Exchange<string>, edge: string -> Result<U256, ParseError>)
    requires exchange(EstimateGasRequest(tx, codecs)) ==
      Success(Response(None, Some(RpcError(-32000, "insufficient funds"))))
    ensures EstimateGas(tx, codecs, exchange, edge) == Failure(Rpc(-32000, "insufficient funds"))
  {
  }

  /** The text the source builds for that node error. */
  lemma NodeErrorText(parseText: ParseError -> string)
    ensures Describe(Rpc(-32000, "insufficient funds"), parseText) == "RPC Error: -32000 - insufficient funds"
  {
    Decimal.ShowMinus32000();
    var text := "RPC Error: " + "-32000" + " - " + "insufficient funds";
    assert text == "RPC Error: -32000 - insufficient funds";
    assert RpcErrorText(-32000, "insufficient funds") == text;
  }

  /** An answer with neither a result nor an error is the unknown error, not a node error. */
  lemma EmptyAnswerScenario(
    tx: Transaction, codecs: Codecs,
    exchange: Exchange<string>, edge: string -> Result<U256, ParseError>)
    requires exchange(EstimateGasRequest(tx, codecs)) == Success(Response(None, None))
    ensures EstimateGas(tx, codecs, exchange, edge) == Failure(Unknown)
  {
  }

  /** A result that is not hex is a parse failure, apart from the node-side errors. */
  lemma GarbageResultScenario(
    tx: Transaction, codecs: Codecs,
    exchange: Exchange<string>, edge: string -> Result<U256, ParseError>)
    requires exchange(EstimateGasRequest(tx, codecs)) == Success(Response(Some("not-a-hex-string"), None))
    ensures EstimateGas(tx, codecs, exchange, edge).Failure?
    ensures EstimateGas(tx, codecs, exchange, edge).error.Parse?
  {
  }
}
