/** Option and Result values standing in for JavaScript's `undefined` and thrown exceptions. */
module Wrappers {

  datatype Option<+T> = None | Some(value: T)

  datatype Result<+R, +E> = Success(value: R) | Failure(error: E)
}

/** The error conditions that the balance reader can raise, one constructor per way a call can fail. */
module Errors {

  datatype Error =
    | MissingAccountCredentials   // getAccount: account address or private key not set
    | AbiNotFound                 // getEthContract: the discovered class has no ABI
    | RpcFailure(message: string) // getClassAt or callContract rejected
    | NullishProperty(key: string) // reading a property of `null` / `undefined` (a TypeError)
    | EmptyResponse               // extractUint256: "balanceOf response is empty"
    | ArrayTooShort(length: nat)  // extractUint256: array with fewer than two elements
    | UnsupportedResponse         // extractUint256: none of the recognised shapes
    | BigIntNotSerializable       // JSON.stringify of that response met a bigint (a TypeError)
    | InvalidLimb                 // uint256ToBN: a limb that is not a non-negative integer
}
