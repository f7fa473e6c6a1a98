# Starknet ETH balance reader, modelled in Dafny

This project models the read-only balance pipeline of `src/starknet.ts`:

- **formatUnits** renders a signed big integer as a fixed-point decimal string with `decimals` implied fraction digits. It pads the digits to `decimals + 1` characters and splits off the last `decimals` of them. It strips trailing zeros from that fraction and omits the point when nothing is left. A negative value keeps its `-`.
- **extractUint256** normalises a loosely typed `balanceOf` response into a `{ low, high }` pair. It accepts three shapes: an array of at least two elements, an object with a `balance` field (handled recursively), or an object with both `low` and `high`. Empty responses, short arrays and everything else are rejected.
- **uint256ToBN** rebuilds the balance as `low + high * 2^128`.
- **fetchEthBalance** gets the cached contract handle and asks the high-level contract helper for the balance. When the helper throws or answers with a falsy value, it makes one raw `callContract` to `balanceOf`. It then decodes the response into a `BalanceResult` with `wei`, a `formatted` value at 18 decimals, and `decimals = 18`.
- **the lazy caches** `provider`, `account` and `ethContract` are the module's nullable handles. Each is filled on its first successful construction.

Layout, one module per file:

| file | module | what it holds |
|---|---|---|
| wrappers.dfy | Wrappers, Errors | Option/Result; one error constructor per way a call can fail |
| decimal.dfy | Decimal | digit strings, `BigInt.prototype.toString()` and its value |
| js_strings.dfy | JsStrings | `padStart`, `slice` with negative indices and the `/0+$/` trim used by formatUnits; `indexOf` for the reading parser |
| units.dfy | Units | `formatUnits`, a parser that inverts it, and its properties |
| js_values.dfy | JsValues | the JavaScript value datatype, truthiness, property access |
| uint256.dfy | Uint256 | `extractUint256`, limb parsing and recombination |
| balance.dfy | Balance | the value-level steps of `fetchEthBalance` |
| client.dfy | Client | the module state as a class with the three caches and `fetchEthBalance` |

The remote side is passed in as values. The answer of `getClassAt`, of the helper's `balanceOf` and of the raw `callContract` is each a `Result<JsValue, string>`: either the returned value or the message of the rejection. The configuration that `readStarknetConfig` would return is a `Config` parameter. A ghost field `calls` records the remote requests in order, so the contracts can say which calls happen and how many times.

Two consequences of the code at `src/starknet.ts:117-144` are worth stating:

- A failure to get the contract (for example a missing ABI) ends the call at `src/starknet.ts:118`, before the helper is asked. No fallback is attempted.
- The helper's error is discarded. When the fallback call also fails, only the fallback's error is reported.

A helper that answers with a non-zero `number` or `bigint` is truthy, so no fallback happens. Such a value is not an array or object, so extraction reaches the final `throw` at `src/starknet.ts:113`. Its message calls `JSON.stringify`, which throws a TypeError on any `bigint`. So `5` fails as unsupported, while `5n`, `{ balance: 5n }` and `{ low: 1n }` fail with that TypeError.

## Model

| member | source | states |
|---|---|---|
| Units.FormatUnits | src/starknet.ts:70-80 | Parsing the output at the same precision (optional `-`, whole digits, optional `.` and at most `decimals` digits) returns exactly the input value, for every value and every precision, 0 included |
| Units.FormatUnitsSign | src/starknet.ts:75-80 | For a negative value the output is `-` followed by the output for its magnitude; a non-negative value never carries a sign |
| Units.FormatUnitsFraction | src/starknet.ts:79-80 | A `.` appears iff `decimals > 0` and the magnitude is not a multiple of 10^decimals; after it come 1 to `decimals` digits whose last is not `0` |
| Units.FormatUnitsParts | src/starknet.ts:77-79 | The whole part is the non-empty padded digits minus the last `decimals`; whole * 10^decimals + fraction digits = magnitude |
| Units.WholePartNeverDefaults | src/starknet.ts:77-78 | Because of the padding to `decimals + 1`, `str.slice(0, -decimals)` is never empty, so the `|| "0"` default never applies |
| Units.FractionValue | src/starknet.ts:77-79 | The stripped fraction has at most `decimals` digits; right-padded to `decimals` digits it restores the magnitude with the whole part; it is empty iff the magnitude is a multiple of 10^decimals |
| Units.FormatUnitsWhole | src/starknet.ts:77-80 | n * 10^decimals renders as the plain decimal string of n, with no point |
| Units.FormatUnitsBelowOne | src/starknet.ts:77-80 | A positive value with at most `decimals` digits renders as `0.` and its digits left-padded to `decimals`, trailing zeros removed |
| Units.FormatUnitsExamples | src/starknet.ts:70-80 | At 18 decimals: 0 gives "0", 10^18 gives "1", 1 gives "0.000000000000000001", 123456789000000000 gives "0.123456789" |
| JsStrings.PadStart | src/starknet.ts:77 | `padStart`: the result is at least `targetLength` long, ends with the input and is fill characters before it |
| JsStrings.SliceCut | src/starknet.ts:78-79 | For a string longer than k, `slice(0, -k)` is everything but the last k characters and `slice(-k)` is exactly those k |
| JsStrings.TrimTrailingZeros | src/starknet.ts:79 | `replace(/0+$/, "")`: the result followed by zeros is the input, and it does not end in `0` |
| JsStrings.TrimTrailingZerosValue | src/starknet.ts:79 | The trimmed digits are empty iff the digits are worth 0, and they are worth the original divided by the power of ten removed |
| Decimal.NatToString | src/starknet.ts:77 | `toString()` of a non-negative value: non-empty, all digits, a leading `0` only for the value 0 |
| Decimal.NatToStringValue | src/starknet.ts:153 | The decimal string of a value reads back as that value |
| Decimal.IntToString | src/starknet.ts:71-73 | `toString()` of any value starts with `-` exactly when the value is negative |
| Uint256.ExtractUint256 | src/starknet.ts:88-115 | Every failure is "empty", "array too short", "unsupported" or the serialisation TypeError; the TypeError only when the value holds a `bigint`, "unsupported" only when the innermost value holds none; a success comes only from a truthy array or object |
| Uint256.Unsupported | src/starknet.ts:112-114 | The final throw fails with the serialisation TypeError iff the value holds a `bigint`, and as "unsupported" otherwise |
| Uint256.ExtractIsFlatOfInnermost | src/starknet.ts:102-106 | The recursion only unwraps `balance` fields: extraction equals the flat shape check on the innermost non-`balance` value |
| Uint256.ExtractNested | src/starknet.ts:104-106 | Any number of `{ balance: ... }` wrappers is transparent to extraction |
| Uint256.ExtractShapes | src/starknet.ts:93-109 | `[low, high, ...]`, `{ low, high, ... }`, `{ balance: [low, high] }` and `{ balance: { low, high } }` all yield the same pair, ignoring later elements and other fields |
| Uint256.ExtractBalanceFirst | src/starknet.ts:104-106 | An object with a `balance` field extracts exactly as that field does, even when it also has `low` and `high` |
| Uint256.ExtractRejects | src/starknet.ts:89-114 | Falsy input fails as empty; `[]` and `[x]` fail as too short with their length; `{}`, an object with only a bigint-free `low`, a string, a number and `true` fail as unsupported |
| Uint256.ExtractBigIntRejects | src/starknet.ts:112-114 | `5n`, `{ balance: 5n }`, `{ low: 1n }` and an object with a bigint nested in another field fail with the serialisation TypeError |
| Uint256.Uint256ToBN | src/starknet.ts:147 | Recombination fails, as an invalid limb, iff a limb does not convert; otherwise the value is low + high * 2^128 of the converted limbs |
| Uint256.LimbValue | src/starknet.ts:147 | A `number` or `bigint` limb converts iff it is non-negative; only numbers, bigints and strings convert; a decimal digit string converts to its value |
| Uint256.Uint256ToBNLimbs | src/starknet.ts:147 | With the low limb below 2^128, the rebuilt value splits back into exactly its two limbs |
| Uint256.FromToLimbs | src/starknet.ts:147 | Splitting any value into limbs and recombining them returns the value; the low limb is below 2^128 |
| Uint256.ToFromLimbs | src/starknet.ts:147 | Recombining a low limb below 2^128 with any high limb and splitting again returns the same limbs |
| Uint256.FromLimbsBound | src/starknet.ts:147 | Two limbs below 2^128 make a value below 2^256 |
| Uint256.LimbOfDecimal | src/starknet.ts:147-148 | A limb given as a decimal string, a non-negative number or a non-negative bigint reads as that number |
| JsValues.Property | src/starknet.ts:143 | Property access fails with a TypeError iff the value is null or undefined; a present field is returned; a missing key or a non-object gives `undefined` |
| JsValues.Falsy | src/starknet.ts:123 | `!value`: null and undefined are falsy, every array and object (even empty) is truthy, a string is falsy iff empty |
| JsValues.Coalesce | src/starknet.ts:143 | `a ?? b` is `b` iff `a` is null or undefined; a defined but falsy `a` such as 0 or "" is kept |
| Balance.FallbackResponse | src/starknet.ts:143 | `fallback.result ?? fallback`: the TypeError of reading `result` iff the raw answer is null or undefined; otherwise the `result` field when it is present and not nullish, else the whole answer |
| Balance.BalanceFromResponse | src/starknet.ts:146-156 | Fails iff extraction or recombination fails, with extraction's own error or the invalid-limb error unchanged; on success the addresses are kept, decimals is 18, `wei` is the decimal string of low + high * 2^128 and reads back as it, and `formatted` is formatUnits of that value at 18 decimals and parses back to it |
| Balance.PrimaryResponse | src/starknet.ts:119-133 | `response` after the try/catch: the helper's answer, or a falsy `undefined` when it threw |
| Balance.TakesFallback | src/starknet.ts:135 | The fallback is taken iff the helper threw or returned a falsy value |
| Balance.SettledResponse | src/starknet.ts:135-144 | A truthy helper answer is used unchanged; otherwise the raw call's rejection is reported, or its answer is unwrapped; a failure only ever comes from the fallback path |
| Balance.FetchOutcome | src/starknet.ts:135-156 | A settled-response failure is returned as is, otherwise the response is decoded; every success carries the requested address, the contract address and 18 decimals |
| Balance.PrimaryUsed | src/starknet.ts:121-135 | A truthy helper answer is decoded as is, and the fallback's answer cannot change the outcome |
| Balance.PrimaryErrorSwallowed | src/starknet.ts:128-144 | A helper error, whatever its message, has the same effect as an empty helper answer; the outcome is then the raw call's error or the decoding of its unwrapped answer |
| Balance.FallbackEnvelope | src/starknet.ts:138-143 | A `{ result: [...] }` envelope is unwrapped, a bare array is used whole, a null answer fails reading `result`, an object without `result` is used whole |
| Balance.OneEtherExample | src/starknet.ts:117-156 | For `0x1` and a helper answer `{ low: "1000000000000000000", high: "0" }`, the result has `wei` "1000000000000000000", `formatted` "1", decimals 18 |
| Client.DiscoveredAbi | src/starknet.ts:53-59 | Succeeds iff the class was returned, is not nullish, and has a truthy `abi`, which is then the result; "ABI not found" iff its `abi` is falsy; a rejected `getClassAt` is reported with its message; a nullish class is the TypeError of reading `abi` |
| Client.BalanceCalls | src/starknet.ts:122-142 | After the contract is in hand, `balanceOf(address)` is called once, then the raw `callContract` to `balanceOf` at the configured contract address with calldata `[address]` once iff the fallback is taken, and nothing else |
| Client.StarknetModule.constructor | src/starknet.ts:12-14 | All three caches start null and no remote call has been made |
| Client.StarknetModule.GetProvider | src/starknet.ts:16-24 | Returns the cached provider once set; otherwise a fresh one for the configured endpoint, which is then cached |
| Client.StarknetModule.GetAccount | src/starknet.ts:26-44 | Returns the cached account once set; without both account address and private key it fails and nothing is cached or built; otherwise a fresh account over the cached provider is cached |
| Client.StarknetModule.GetEthContract | src/starknet.ts:46-68 | Returns the cached contract once set, with no remote call; otherwise builds the provider, calls `getClassAt` once, and caches a fresh contract with that ABI and address only on success; on a failure `ethContract` stays null |
| Client.StarknetModule.FetchEthBalance | src/starknet.ts:117-157 | A failure to get the contract is returned before any balance call; otherwise the result is the pipeline outcome and the remote calls are exactly `balanceOf`, plus one fallback call iff needed; the caches keep the invariant that every handle uses the cached provider |

## Left out

- Remote transport: `getClassAt`, `contract.balanceOf` and `provider.callContract` are not modelled. Their answers (a value or a rejection message) are parameters.
- Library object construction: `RpcProvider`, `Account` and `Contract` are plain handle classes that only record their constructor arguments.
- `readStarknetConfig`, and the environment reading behind it, are not part of this model. The configuration is a parameter, so a failure inside it (for example a missing RPC URL) is not modelled.
- `console.warn` logging is left out. Error messages keep only which error occurs, not the `JSON.stringify(...).slice(0, 200)` text.
- async/await is modelled as sequential steps. Races between concurrent first calls on the caches are left out.
- `src/agent.ts` (entrypoint registration, input schemas, the address fallback) is not part of this model.
- Units.FormatUnits: `decimals` is a natural number. The JavaScript `number` could be negative or fractional, but the only caller passes 18.
- JsValues.JsValue: `number` values are integers only. NaN and `-0` (both falsy), fractions, functions and symbols are left out. `in` is own fields only, with no prototype chain.
- Uint256.Unsupported: of `JSON.stringify`'s failures only the `bigint` TypeError is modelled. Circular objects and `toJSON` methods cannot be expressed in the value datatype. The message text is not kept.
- Uint256.ExtractUint256: an object accepted at line 108 is returned "as is" in the source; the model keeps only its `low` and `high` fields, which is all `uint256ToBN` reads.
- Uint256.LimbValue: `BigInt()` conversion is modelled for non-negative integers, decimal digit strings (the empty string reads as 0) and `0x`/`0X` hex strings. Whitespace trimming, octal and binary prefixes, signed strings, negative numbers and bigints, and booleans are treated as invalid limbs.
- Uint256.Uint256ToBN: the library's own range check on the limbs is not modelled. A limb of 2^128 or more is accepted and enters the formula unchanged.
