/** extractUint256 and the recombination of the two 128-bit limbs into one balance. */
module Uint256 {
  import opened Wrappers
  import opened Errors
  import opened Decimal
  import opened JsValues

  /** The `{ low, high }` pair handed to uint256ToBN; the limbs stay untyped JavaScript values. */
  datatype Uint256Like = Uint256Like(low: JsValue, high: JsValue)

  /** Normalises a balanceOf response: an array of at least two elements, an object whose
      `balance` field is normalised in turn, or an object that has both `low` and `high`. */
  function ExtractUint256(value: JsValue): (r: Result<Uint256Like, Error>)
    ensures r.Failure? ==> r.error == EmptyResponse || r.error.ArrayTooShort? || r.error == UnsupportedResponse
                           || r.error == BigIntNotSerializable
    ensures r == Failure(BigIntNotSerializable) ==> HoldsBigInt(value)
    ensures r == Failure(UnsupportedResponse) ==> !HoldsBigInt(Innermost(value))
    ensures r.Success? ==> !Falsy(value) && (value.Arr? || value.Obj?)
  {
    if Falsy(value) then
      Failure(EmptyResponse)
    else
      match value
      case Arr(elems) =>
        if |elems| >= 2 then Success(Uint256Like(elems[0], elems[1]))
        else Failure(ArrayTooShort(|elems|))
      case Obj(fields) =>
        if "balance" in fields then
          ExtractUint256(fields["balance"])
        else if "low" in fields && "high" in fields then
          Success(Uint256Like(fields["low"], fields["high"]))
        else
          Unsupported(value)
      case _ => Unsupported(value)
  }

  /** The final throw: its message serialises the value, which fails first on a bigint. */
  function Unsupported(value: JsValue): (r: Result<Uint256Like, Error>)
    ensures r.Failure?
    ensures r.error == BigIntNotSerializable <==> HoldsBigInt(value)
    ensures r.error == UnsupportedResponse <==> !HoldsBigInt(value)
  {
    if HoldsBigInt(value) then Failure(BigIntNotSerializable) else Failure(UnsupportedResponse)
  }

  /** The value reached by following `balance` fields as far as they go. */
  function Innermost(value: JsValue): (r: JsValue)
    ensures !(r.Obj? && "balance" in r.fields)
  {
    if value.Obj? && "balance" in value.fields then Innermost(value.fields["balance"]) else value
  }

  /** The shape checks alone, for a value that has no `balance` field to follow. */
  function ExtractFlat(value: JsValue): Result<Uint256Like, Error> {
    if Falsy(value) then Failure(EmptyResponse)
    else if value.Arr? then
      if |value.elems| >= 2 then Success(Uint256Like(value.elems[0], value.elems[1]))
      else Failure(ArrayTooShort(|value.elems|))
    else if value.Obj? && "low" in value.fields && "high" in value.fields then
      Success(Uint256Like(value.fields["low"], value.fields["high"]))
    else Unsupported(value)
  }

  /** The recursion only ever unwraps `balance` fields: extraction is the flat shape check
      applied to the innermost value. */
  lemma {:induction false} ExtractIsFlatOfInnermost(value: JsValue)
    ensures ExtractUint256(value) == ExtractFlat(Innermost(value))
  {
    if value.Obj? && "balance" in value.fields {
      ExtractIsFlatOfInnermost(value.fields["balance"]);
    }
  }

  /** `n` layers of `{ balance: ... }` around a value. */
  function Nest(n: nat, value: JsValue): (r: JsValue)
    ensures n > 0 ==> r.Obj? && "balance" in r.fields
  {
    if n == 0 then value else Obj(map["balance" := Nest(n - 1, value)])
  }

  /** Any number of `balance` wrappers is transparent. */
  lemma {:induction false} ExtractNested(n: nat, value: JsValue)
    ensures ExtractUint256(Nest(n, value)) == ExtractUint256(value)
  {
    if n > 0 {
      ExtractNested(n - 1, value);
    }
  }

  /** The three accepted shapes give the same pair; later array elements and other object fields are ignored. */
  lemma {:induction false} ExtractShapes(low: JsValue, high: JsValue, rest: seq<JsValue>, others: map<string, JsValue>)
    requires "balance" !in others
    ensures ExtractUint256(Arr([low, high] + rest)) == Success(Uint256Like(low, high))
    ensures ExtractUint256(Obj(others["low" := low]["high" := high])) == Success(Uint256Like(low, high))
    ensures ExtractUint256(Obj(map["balance" := Arr([low, high])])) == Success(Uint256Like(low, high))
    ensures ExtractUint256(Obj(map["balance" := Obj(map["low" := low, "high" := high])])) == Success(Uint256Like(low, high))
  {
    var flat := others["low" := low]["high" := high];
    assert "balance" !in flat;
  }

  /** A `balance` field wins over `low` / `high` in the same object. */
  lemma {:induction false} ExtractBalanceFirst(fields: map<string, JsValue>)
    requires "balance" in fields
    ensures ExtractUint256(Obj(fields)) == ExtractUint256(fields["balance"])
  {
  }

  /** Everything falsy is "empty", short arrays (the empty one included) are rejected by length,
      and anything else without the recognised fields is unsupported. */
  lemma {:induction false} ExtractRejects(v: JsValue, x: JsValue)
    ensures Falsy(v) ==> ExtractUint256(v) == Failure(EmptyResponse)
    ensures ExtractUint256(Arr([])) == Failure(ArrayTooShort(0))
    ensures ExtractUint256(Arr([x])) == Failure(ArrayTooShort(1))
    ensures ExtractUint256(Obj(map[])) == Failure(UnsupportedResponse)
    ensures !HoldsBigInt(x) ==> ExtractUint256(Obj(map["low" := x])) == Failure(UnsupportedResponse)
    ensures ExtractUint256(Str("0x1")) == Failure(UnsupportedResponse)
    ensures ExtractUint256(Num(5)) == Failure(UnsupportedResponse)
    ensures ExtractUint256(Bool(true)) == Failure(UnsupportedResponse)
  {
  }

  /** A bigint where no shape matches makes the error message itself throw: `5n`, `{ balance: 5n }`
      and `{ low: 1n }` all end in JSON.stringify's TypeError, not the "unsupported" error. */
  lemma {:induction false} ExtractBigIntRejects(i: int)
    requires i != 0
    ensures ExtractUint256(BigInt(i)) == Failure(BigIntNotSerializable)
    ensures ExtractUint256(Obj(map["balance" := BigInt(i)])) == Failure(BigIntNotSerializable)
    ensures ExtractUint256(Obj(map["low" := BigInt(i)])) == Failure(BigIntNotSerializable)
    ensures ExtractUint256(Obj(map["low" := Num(1), "other" := Arr([BigInt(i)])])) == Failure(BigIntNotSerializable)
  {
    var low := map["low" := BigInt(i)];
    assert HoldsBigInt(low["low"]);
    var nested := map["low" := Num(1), "other" := Arr([BigInt(i)])];
    assert HoldsBigInt(nested["other"].elems[0]);
    assert HoldsBigInt(nested["other"]);
  }

  /** 2^128, the weight of the high limb. */
  const LimbBase: nat := 0x1_0000_0000_0000_0000_0000_0000_0000_0000

  function FromLimbs(low: nat, high: nat): nat {
    low + high * LimbBase
  }

  function ToLimbs(value: nat): (nat, nat) {
    (value % LimbBase, value / LimbBase)
  }

  lemma {:induction false} FromToLimbs(value: nat)
    ensures FromLimbs(ToLimbs(value).0, ToLimbs(value).1) == value
    ensures ToLimbs(value).0 < LimbBase
  {
  }

  lemma {:induction false} ToFromLimbs(low: nat, high: nat)
    requires low < LimbBase
    ensures ToLimbs(FromLimbs(low, high)) == (low, high)
  {
    DivModOfShifted(high, low, LimbBase);
  }

  /** Two limbs in range make a value below 2^256. */
  lemma {:induction false} FromLimbsBound(low: nat, high: nat)
    requires low < LimbBase && high < LimbBase
    ensures FromLimbs(low, high) < LimbBase * LimbBase
  {
    assert high * LimbBase <= (LimbBase - 1) * LimbBase;
  }

  predicate IsHexDigit(c: char) {
    '0' <= c <= '9' || 'a' <= c <= 'f' || 'A' <= c <= 'F'
  }

  predicate AllHexDigits(s: string) {
    forall i :: 0 <= i < |s| ==> IsHexDigit(s[i])
  }

  function HexDigitValue(c: char): (d: nat)
    requires IsHexDigit(c)
    ensures d < 16
  {
    if '0' <= c <= '9' then c as int - '0' as int
    else if 'a' <= c <= 'f' then c as int - 'a' as int + 10
    else c as int - 'A' as int + 10
  }

  function HexValue(s: string): nat
    requires AllHexDigits(s)
  {
    if s == "" then 0 else HexValue(s[..|s| - 1]) * 16 + HexDigitValue(s[|s| - 1])
  }

  /** BigInt(limb) for the limb forms a balance response carries: a non-negative integer,
      a decimal digit string (the empty string reads as 0) or a "0x" hexadecimal string. */
  function LimbValue(limb: JsValue): (r: Option<nat>)
    ensures (limb.Num? || limb.BigInt?) ==> (r.Some? <==> (if limb.Num? then limb.n else limb.i) >= 0)
    ensures r.Some? ==> limb.Num? || limb.BigInt? || limb.Str?
    ensures limb.Str? && AllDigits(limb.s) ==> r == Some(DigitsValue(limb.s))
  {
    match limb
    case Num(n) => if n >= 0 then Some(n) else None
    case BigInt(i) => if i >= 0 then Some(i) else None
    case Str(s) =>
      if AllDigits(s) then Some(DigitsValue(s))
      else if |s| > 2 && s[0] == '0' && (s[1] == 'x' || s[1] == 'X') && AllHexDigits(s[2..]) then Some(HexValue(s[2..]))
      else None
    case _ => None
  }

  /** uint256.uint256ToBN: low + high * 2^128. */
  function Uint256ToBN(u: Uint256Like): (r: Result<nat, Error>)
    ensures r.Failure? <==> LimbValue(u.low).None? || LimbValue(u.high).None?
    ensures r.Failure? ==> r.error == InvalidLimb
    ensures r.Success? ==> r.value == FromLimbs(LimbValue(u.low).value, LimbValue(u.high).value)
  {
    match (LimbValue(u.low), LimbValue(u.high))
    case (Some(low), Some(high)) => Success(FromLimbs(low, high))
    case _ => Failure(InvalidLimb)
  }

  /** With the low limb in range, the reconstructed value splits back into exactly the limbs it came from. */
  lemma {:induction false} Uint256ToBNLimbs(u: Uint256Like, low: nat, high: nat)
    requires LimbValue(u.low) == Some(low) && LimbValue(u.high) == Some(high) && low < LimbBase
    ensures Uint256ToBN(u).Success? && ToLimbs(Uint256ToBN(u).value) == (low, high)
  {
    ToFromLimbs(low, high);
  }

  /** A limb written as the decimal string of a number reads back as that number. */
  lemma {:induction false} LimbOfDecimal(n: nat)
    ensures LimbValue(Str(NatToString(n))) == Some(n)
    ensures LimbValue(Num(n)) == Some(n)
    ensures LimbValue(BigInt(n)) == Some(n)
  {
    NatToStringValue(n);
  }
}
