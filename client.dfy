/** The module-level state of the balance reader: lazily built provider, account and contract
    handles, and fetchEthBalance's primary-then-fallback protocol over them. */
module Client {
  import opened Wrappers
  import opened Errors
  import opened JsValues
  import opened Balance

  /** What readStarknetConfig supplies. `None` is an unset variable. */
  datatype Config = Config(
    rpcUrl: string,
    ethContractAddress: string,
    accountAddress: Option<string>,
    privateKey: Option<string>)

  /** A JavaScript truthiness test on an optional string: unset and "" both fail it. */
  predicate IsSet(s: Option<string>) {
    s.Some? && s.value != ""
  }

  /** The remote requests issued, in order. */
  datatype RemoteCall =
    | GetClassAt(contractAddress: string)
    | BalanceOf(address: string)
    | CallContract(contractAddress: string, entrypoint: string, calldata: seq<string>)

  class Provider {
    const nodeUrl: string

    constructor (nodeUrl: string)
      ensures this.nodeUrl == nodeUrl
    {
      this.nodeUrl := nodeUrl;
    }
  }

  class Account {
    const provider: Provider
    const address: string
    const signer: string

    constructor (provider: Provider, address: string, signer: string)
      ensures this.provider == provider && this.address == address && this.signer == signer
    {
      this.provider := provider;
      this.address := address;
      this.signer := signer;
    }
  }

  class Contract {
    const abi: JsValue
    const address: string
    const provider: Provider

    constructor (abi: JsValue, address: string, provider: Provider)
      ensures this.abi == abi && this.address == address && this.provider == provider
    {
      this.abi := abi;
      this.address := address;
      this.provider := provider;
    }
  }

  /** The ABI found in getClassAt's answer, or why there is none: the call failed, the answer
      was null or undefined, or its `abi` field is falsy. */
  function DiscoveredAbi(classInfo: Result<JsValue, string>): (r: Result<JsValue, Error>)
    ensures r.Success? ==> classInfo.Success? && classInfo.value.Obj? && "abi" in classInfo.value.fields
                           && r.value == classInfo.value.fields["abi"] && !Falsy(r.value)
    ensures r == Failure(AbiNotFound) <==>
              classInfo.Success? && !Nullish(classInfo.value) && Falsy(Property(classInfo.value, "abi").value)
    ensures r.Success? <==>
              classInfo.Success? && !Nullish(classInfo.value) && !Falsy(Property(classInfo.value, "abi").value)
    ensures classInfo.Failure? ==> r == Failure(RpcFailure(classInfo.error))
    ensures classInfo.Success? && Nullish(classInfo.value) ==> r == Failure(NullishProperty("abi"))
  {
    match classInfo
    case Failure(message) => Failure(RpcFailure(message))
    case Success(info) =>
      match Property(info, "abi")
      case Failure(e) => Failure(e)
      case Success(abi) => if Falsy(abi) then Failure(AbiNotFound) else Success(abi)
  }

  /** The remote calls fetchEthBalance makes once the contract handle is in hand. */
  function BalanceCalls(address: string, config: Config, primary: Result<JsValue, string>): (calls: seq<RemoteCall>)
    ensures 1 <= |calls| <= 2 && calls[0] == BalanceOf(address)
    ensures |calls| == 2 <==> TakesFallback(primary)
    ensures |calls| == 2 ==> calls[1] == CallContract(config.ethContractAddress, "balanceOf", [address])
  {
    [BalanceOf(address)]
      + if TakesFallback(primary) then [CallContract(config.ethContractAddress, "balanceOf", [address])] else []
  }

  class StarknetModule {
    var provider: Provider?
    var account: Account?
    var ethContract: Contract?
    ghost var calls: seq<RemoteCall>

    /** Every cached handle was built over the cached provider. */
    ghost predicate Valid()
      reads this
    {
      && (account != null ==> provider != null && account.provider == provider)
      && (ethContract != null ==> provider != null && ethContract.provider == provider)
    }

    constructor ()
      ensures Valid()
      ensures provider == null && account == null && ethContract == null && calls == []
    {
      provider, account, ethContract := null, null, null;
      calls := [];
    }

    /** The cached provider; built for the configured endpoint on first use. */
    method GetProvider(config: Config) returns (p: Provider)
      requires Valid()
      modifies this`provider
      ensures Valid()
      ensures p == provider
      ensures old(provider) != null ==> p == old(provider)
      ensures old(provider) == null ==> fresh(p) && p.nodeUrl == config.rpcUrl
    {
      if provider != null {
        return provider;
      }
      provider := new Provider(config.rpcUrl);
      p := provider;
    }

    /** The cached account; without both an account address and a private key it fails and caches nothing. */
    method GetAccount(config: Config) returns (r: Result<Account, Error>)
      requires Valid()
      modifies this`provider, this`account
      ensures Valid()
      ensures old(account) != null ==> r == Success(old(account)) && account == old(account) && provider == old(provider)
      ensures old(account) == null && !(IsSet(config.accountAddress) && IsSet(config.privateKey)) ==>
                r == Failure(MissingAccountCredentials) && account == null && provider == old(provider)
      ensures old(account) == null && IsSet(config.accountAddress) && IsSet(config.privateKey) ==>
                && r.Success? && r.value == account && fresh(account)
                && account.address == config.accountAddress.value && account.signer == config.privateKey.value
                && (old(provider) != null ==> provider == old(provider))
                && (old(provider) == null ==> fresh(provider) && provider.nodeUrl == config.rpcUrl)
    {
      if account != null {
        return Success(account);
      }
      if !IsSet(config.accountAddress) || !IsSet(config.privateKey) {
        return Failure(MissingAccountCredentials);
      }
      var p := GetProvider(config);
      account := new Account(p, config.accountAddress.value, config.privateKey.value);
      r := Success(account);
    }

    /** The cached contract handle. On a miss it builds the provider, asks for the contract's
        class and caches a handle only when that class has an ABI. */
    method GetEthContract(config: Config, classInfo: Result<JsValue, string>) returns (r: Result<Contract, Error>)
      requires Valid()
      modifies this`provider, this`ethContract, this`calls
      ensures Valid()
      ensures old(ethContract) != null ==>
                r == Success(old(ethContract)) && ethContract == old(ethContract)
                && provider == old(provider) && calls == old(calls)
      ensures old(ethContract) == null ==>
                && provider != null
                && (old(provider) != null ==> provider == old(provider))
                && (old(provider) == null ==> fresh(provider) && provider.nodeUrl == config.rpcUrl)
                && calls == old(calls) + [GetClassAt(config.ethContractAddress)]
      ensures old(ethContract) == null && DiscoveredAbi(classInfo).Failure? ==>
                r == Failure(DiscoveredAbi(classInfo).error) && ethContract == null
      ensures old(ethContract) == null && DiscoveredAbi(classInfo).Success? ==>
                && r == Success(ethContract) && ethContract != null && fresh(ethContract)
                && ethContract.abi == DiscoveredAbi(classInfo).value
                && ethContract.address == config.ethContractAddress
    {
      if ethContract != null {
        return Success(ethContract);
      }
      var providerInstance := GetProvider(config);
      calls := calls + [GetClassAt(config.ethContractAddress)];
      var abi := DiscoveredAbi(classInfo);
      if abi.Failure? {
        return Failure(abi.error);
      }
      ethContract := new Contract(abi.value, config.ethContractAddress, providerInstance);
      r := Success(ethContract);
    }

    /** fetchEthBalance: acquire the contract handle (a failure there ends the call), ask the
        helper, fall back to the raw call when it threw or answered falsy, then decode. */
    method FetchEthBalance(address: string, config: Config, classInfo: Result<JsValue, string>,
                           primary: Result<JsValue, string>, fallback: Result<JsValue, string>)
      returns (r: Result<BalanceResult, Error>)
      requires Valid()
      modifies this`provider, this`ethContract, this`calls
      ensures Valid()
      ensures old(ethContract) != null ==>
                && ethContract == old(ethContract) && provider == old(provider)
                && r == FetchOutcome(address, ethContract.address, primary, fallback)
                && calls == old(calls) + BalanceCalls(address, config, primary)
      ensures old(ethContract) == null ==>
                && provider != null
                && (old(provider) != null ==> provider == old(provider))
                && (old(provider) == null ==> fresh(provider) && provider.nodeUrl == config.rpcUrl)
      ensures old(ethContract) == null && DiscoveredAbi(classInfo).Failure? ==>
                && r == Failure(DiscoveredAbi(classInfo).error) && ethContract == null
                && calls == old(calls) + [GetClassAt(config.ethContractAddress)]
      ensures old(ethContract) == null && DiscoveredAbi(classInfo).Success? ==>
                && ethContract != null && fresh(ethContract)
                && ethContract.abi == DiscoveredAbi(classInfo).value
                && ethContract.address == config.ethContractAddress
                && r == FetchOutcome(address, config.ethContractAddress, primary, fallback)
                && calls == old(calls) + [GetClassAt(config.ethContractAddress)] + BalanceCalls(address, config, primary)
    {
      var acquired := GetEthContract(config, classInfo);
      if acquired.Failure? {
        return Failure(acquired.error);
      }
      var contract := acquired.value;
      ghost var before := calls;

      var response: JsValue := Undefined;
      calls := calls + [BalanceOf(address)];
      if primary.Success? {
        response := primary.value;
      }

      if Falsy(response) {
        var providerInstance := GetProvider(config);
        calls := calls + [CallContract(config.ethContractAddress, "balanceOf", [address])];
        if fallback.Failure? {
          return Failure(RpcFailure(fallback.error));
        }
        var unwrapped := FallbackResponse(fallback.value);
        if unwrapped.Failure? {
          return Failure(unwrapped.error);
        }
        response := unwrapped.value;
      }
      assert calls == before + BalanceCalls(address, config, primary);
      assert SettledResponse(primary, fallback) == Success(response);

      r := BalanceFromResponse(address, contract.address, response);
    }
  }

  /** A usage example, not a model of any source line: two calls in a row hand back the same provider,
      and a second account lookup returns the cached account. */
  method CachesAreStable(config: Config)
    requires IsSet(config.accountAddress) && IsSet(config.privateKey)
  {
    var m := new StarknetModule();
    var p1 := m.GetProvider(config);
    var p2 := m.GetProvider(config);
    assert p1 == p2 && p1.nodeUrl == config.rpcUrl;
    var a1 := m.GetAccount(config);
    var a2 := m.GetAccount(config);
    assert a1.Success? && a1 == a2 && a1.value.provider == p1;
  }
}
