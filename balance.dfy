/** The value-level steps of fetchEthBalance: choosing the response between the contract
    helper and the raw fallback call, and turning it into a BalanceResult. */
module Balance {
  import opened Wrappers
  import opened Errors
  import opened Decimal
  import opened JsValues
  import opened Units
  import opened Uint256

  datatype BalanceResult = BalanceResult(
    address: string,
    contractAddress: string,
    wei: string,
    formatted: string,
    decimals: nat)

  /** ETH has 18 fraction digits. */
  const EthDecimals: nat := 18

  /** `response` after the try/catch around `contract.balanceOf`: what it returned, or still
      `undefined` when it threw (the error itself is only logged). */
  function PrimaryResponse(primary: Result<JsValue, string>): (r: JsValue)
    ensures primary.Success? ==> r == primary.value
    ensures primary.Failure? ==> r == Undefined && Falsy(r)
  {
    match primary
    case Success(v) => v
    case Failure(_) => Undefined
  }

  /** The fallback is taken exactly when the helper threw or returned a falsy value. */
  predicate TakesFallback(primary: Result<JsValue, string>)
    ensures TakesFallback(primary) <==> primary.Failure? || Falsy(primary.value)
  {
    Falsy(PrimaryResponse(primary))
  }

  /** `(fallback as { result?: unknown }).result ?? fallback`. */
  function FallbackResponse(raw: JsValue): (r: Result<JsValue, Error>)
    ensures r.Failure? <==> Nullish(raw)
    ensures r.Failure? ==> r.error == NullishProperty("result")
    ensures r.Success? && raw.Obj? && "result" in raw.fields && !Nullish(raw.fields["result"]) ==>
              r.value == raw.fields["result"]
    ensures r.Success? && !(raw.Obj? && "result" in raw.fields && !Nullish(raw.fields["result"])) ==>
              r.value == raw
  {
    match Property(raw, "result")
    case Failure(e) => Failure(e)
    case Success(inner) => Success(Coalesce(inner, raw))
  }

  /** The response handed to extractUint256, or the error of the fallback call. */
  function SettledResponse(primary: Result<JsValue, string>, fallback: Result<JsValue, string>): (r: Result<JsValue, Error>)
    ensures !TakesFallback(primary) ==> r == Success(primary.value) && !Falsy(r.value)
    ensures TakesFallback(primary) && fallback.Failure? ==> r == Failure(RpcFailure(fallback.error))
    ensures TakesFallback(primary) && fallback.Success? ==> r == FallbackResponse(fallback.value)
    ensures r.Failure? ==> TakesFallback(primary)
  {
    if !TakesFallback(primary) then
      Success(PrimaryResponse(primary))
    else
      match fallback
      case Failure(message) => Failure(RpcFailure(message))
      case Success(raw) => FallbackResponse(raw)
  }

  /** Lines 146-156: extract the limbs, rebuild the integer and render it. */
  function BalanceFromResponse(address: string, contractAddress: string, response: JsValue): (r: Result<BalanceResult, Error>)
    ensures r.Failure? <==> ExtractUint256(response).Failure? || Uint256ToBN(ExtractUint256(response).value).Failure?
    ensures ExtractUint256(response).Failure? ==> r == Failure(ExtractUint256(response).error)
    ensures ExtractUint256(response).Success? && Uint256ToBN(ExtractUint256(response).value).Failure? ==>
              r == Failure(InvalidLimb)
    ensures r.Success? ==>
      var wei := Uint256ToBN(ExtractUint256(response).value).value;
      && r.value.address == address
      && r.value.contractAddress == contractAddress
      && r.value.decimals == EthDecimals
      && r.value.wei == NatToString(wei) && DigitsValue(r.value.wei) == wei
      && r.value.formatted == FormatUnits(wei, EthDecimals)
      && ParseUnits(r.value.formatted, EthDecimals) == Some(wei as int)
  {
    match ExtractUint256(response)
    case Failure(e) => Failure(e)
    case Success(raw) =>
      match Uint256ToBN(raw)
      case Failure(e) => Failure(e)
      case Success(wei) =>
        NatToStringValue(wei);
        Success(BalanceResult(address, contractAddress, NatToString(wei), FormatUnits(wei, EthDecimals), EthDecimals))
  }

  /** What fetchEthBalance returns once it holds a contract handle at `contractAddress`. */
  function FetchOutcome(address: string, contractAddress: string,
                        primary: Result<JsValue, string>, fallback: Result<JsValue, string>): (r: Result<BalanceResult, Error>)
    ensures SettledResponse(primary, fallback).Failure? ==> r == Failure(SettledResponse(primary, fallback).error)
    ensures SettledResponse(primary, fallback).Success? ==>
              r == BalanceFromResponse(address, contractAddress, SettledResponse(primary, fallback).value)
    ensures r.Success? ==> r.value.address == address && r.value.contractAddress == contractAddress
                           && r.value.decimals == EthDecimals
  {
    match SettledResponse(primary, fallback)
    case Failure(e) => Failure(e)
    case Success(response) => BalanceFromResponse(address, contractAddress, response)
  }

  /** A usable primary response is used as is and the fallback's answer is irrelevant. */
  lemma {:induction false} PrimaryUsed(address: string, contractAddress: string, v: JsValue,
                                       fallback1: Result<JsValue, string>, fallback2: Result<JsValue, string>)
    requires !Falsy(v)
    ensures FetchOutcome(address, contractAddress, Success(v), fallback1) == BalanceFromResponse(address, contractAddress, v)
    ensures FetchOutcome(address, contractAddress, Success(v), fallback1) == FetchOutcome(address, contractAddress, Success(v), fallback2)
  {
  }

  /** A primary error is swallowed: whatever its message, the outcome is that of a helper that
      returned nothing, and depends on the fallback alone. */
  lemma {:induction false} PrimaryErrorSwallowed(address: string, contractAddress: string, message: string,
                                                 fallback: Result<JsValue, string>)
    ensures FetchOutcome(address, contractAddress, Failure(message), fallback)
            == FetchOutcome(address, contractAddress, Success(Undefined), fallback)
    ensures fallback.Failure? ==>
              FetchOutcome(address, contractAddress, Failure(message), fallback) == Failure(RpcFailure(fallback.error))
    ensures fallback.Success? && !Nullish(fallback.value) ==>
              FetchOutcome(address, contractAddress, Failure(message), fallback)
              == BalanceFromResponse(address, contractAddress, FallbackResponse(fallback.value).value)
  {
  }

  /** A raw call answered with a `result` envelope is unwrapped; a bare array is used whole. */
  lemma {:induction false} FallbackEnvelope(limbs: seq<JsValue>, others: map<string, JsValue>)
    ensures FallbackResponse(Obj(others["result" := Arr(limbs)])) == Success(Arr(limbs))
    ensures FallbackResponse(Arr(limbs)) == Success(Arr(limbs))
    ensures FallbackResponse(Null) == Failure(NullishProperty("result"))
    ensures "result" !in others ==> FallbackResponse(Obj(others)) == Success(Obj(others))
  {
  }

  lemma {:induction false} OneEtherString()
    ensures NatToString(1000000000000000000) == "1000000000000000000"
  {
    Pow10Of18();
    NatToStringShift(1, 18);
  }

  lemma {:induction false} OneEtherDigits()
    ensures NatToString(1000000000000000000) == "1000000000000000000"
    ensures LimbValue(Str("1000000000000000000")) == Some(1000000000000000000)
    ensures LimbValue(Str("0")) == Some(0)
  {
    OneEtherString();
    LimbOfDecimal(1000000000000000000);
    assert NatToString(0) == "0";
    LimbOfDecimal(0);
  }

  lemma {:induction false} OneEtherResponse(address: string, contractAddress: string, response: JsValue)
    requires response == Obj(map["low" := Str("1000000000000000000"), "high" := Str("0")])
    ensures BalanceFromResponse(address, contractAddress, response)
            == Success(BalanceResult(address, contractAddress, "1000000000000000000", "1", 18))
  {
    var u := OneEtherLimbs(response);
    assert BalanceFromResponse(address, contractAddress, response)
           == Success(BalanceResult(address, contractAddress, NatToString(1000000000000000000),
                                    FormatUnits(1000000000000000000, EthDecimals), EthDecimals));
    OneEtherString();
    FormatUnitsExamples();
  }

  lemma {:induction false} OneEtherLimbs(response: JsValue) returns (u: Uint256Like)
    requires response == Obj(map["low" := Str("1000000000000000000"), "high" := Str("0")])
    ensures ExtractUint256(response) == Success(u)
    ensures Uint256ToBN(u) == Success(1000000000000000000)
  {
    u := OneEtherShape(response);
    OneEtherDigits();
    assert FromLimbs(1000000000000000000, 0) == 1000000000000000000;
  }

  lemma {:induction false} OneEtherShape(response: JsValue) returns (u: Uint256Like)
    requires response == Obj(map["low" := Str("1000000000000000000"), "high" := Str("0")])
    ensures ExtractUint256(response) == Success(u)
    ensures u == Uint256Like(Str("1000000000000000000"), Str("0"))
  {
    u := Uint256Like(Str("1000000000000000000"), Str("0"));
    assert "balance"[0] != "low"[0] && "balance"[0] != "high"[0];
    assert "balance" !in response.fields;
  }

  /** The end-to-end example: a helper answering { low: "1000000000000000000", high: "0" } for 0x1. */
  lemma {:induction false} OneEtherExample(contractAddress: string, fallback: Result<JsValue, string>)
    ensures FetchOutcome("0x1", contractAddress,
                         Success(Obj(map["low" := Str("1000000000000000000"), "high" := Str("0")])), fallback)
            == Success(BalanceResult("0x1", contractAddress, "1000000000000000000", "1", 18))
  {
    var response := Obj(map["low" := Str("1000000000000000000"), "high" := Str("0")]);
    OneEtherResponse("0x1", contractAddress, response);
  }
}
