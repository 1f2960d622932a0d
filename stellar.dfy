/** packages/stellar-utils/index.ts: the rules the data-entry helpers apply
    around the Horizon network. The network (account loading, transaction
    building, Freighter signing and submission) is a parameter; the model
    covers the length guards, the proof-hash key and value, the `null` cases
    of reading an entry and the choice of the native balance. */
module Stellar {
  import opened Outcomes
  import IdentityStore

  /** One entry of an account's `balances`. */
  datatype Balance = Balance(assetType: string, balance: string)

  /** The parts of a loaded account the helpers look at: `data_attr` (absent
      or a map from entry name to its base64 value) and `balances`. */
  datatype Account = Account(dataAttr: Option<map<string, string>>, balances: seq<Balance>)

  /** The network as seen from the helpers: `server.loadAccount`, and the
      build-sign-submit sequence for one manageData operation (which fails,
      among other reasons, when Freighter is missing). */
  datatype Network = Network(
    loadAccount: string -> Result<Account>,
    submitManageData: (Account, string, string) -> Result<string>)

  /** Stellar limits data entry names and values to 64 bytes; the source
      compares the string lengths. */
  const MaxEntryLength := 64

  const KeyTooLong := "Data entry key too long (max 64 bytes)"
  const ValueTooLong := "Data entry value too long (max 64 bytes)"
  const StorePrefix := "Failed to store data entry: "

  /** The part of storeDataEntry after the guards: load, then submit. */
  function LoadAndSubmit(net: Network, publicKey: string, key: string, value: string): (r: Result<string>)
    ensures r.Success? ==> net.loadAccount(publicKey).Success?
  {
    match net.loadAccount(publicKey)
    case Failure(e) => Failure(e)
    case Success(account) => net.submitManageData(account, key, value)
  }

  /** storeDataEntry: the key guard, then the value guard, then the network;
      every failure is rethrown with StorePrefix. */
  function StoreDataEntry(net: Network, publicKey: string, key: string, value: string): (r: Result<string>)
    ensures |key| > MaxEntryLength ==> r == Failure(StorePrefix + KeyTooLong)
    ensures |key| <= MaxEntryLength && |value| > MaxEntryLength ==> r == Failure(StorePrefix + ValueTooLong)
    ensures |key| <= MaxEntryLength && |value| <= MaxEntryLength ==> r == WrapFailure(LoadAndSubmit(net, publicKey, key, value), StorePrefix)
    ensures r.Success? ==> |key| <= MaxEntryLength && |value| <= MaxEntryLength && net.loadAccount(publicKey).Success?
    ensures r.Failure? ==> StorePrefix <= r.error
  {
    if |key| > MaxEntryLength then Failure(StorePrefix + KeyTooLong)
    else if |value| > MaxEntryLength then Failure(StorePrefix + ValueTooLong)
    else WrapFailure(LoadAndSubmit(net, publicKey, key, value), StorePrefix)
  }

  /** The guards run before the account is loaded: when one of them trips,
      the outcome is the same on every network. */
  lemma GuardsPrecedeNetwork(net1: Network, net2: Network, publicKey: string, key: string, value: string)
    requires |key| > MaxEntryLength || |value| > MaxEntryLength
    ensures StoreDataEntry(net1, publicKey, key, value) == StoreDataEntry(net2, publicKey, key, value)
    ensures StoreDataEntry(net1, publicKey, key, value).Failure?
  {
  }

  /** The exact-64 boundary passes both guards. */
  lemma BoundaryPassesGuards(net: Network, publicKey: string, key: string, value: string)
    requires |key| == MaxEntryLength && |value| == MaxEntryLength
    ensures StoreDataEntry(net, publicKey, key, value) == WrapFailure(LoadAndSubmit(net, publicKey, key, value), StorePrefix)
  {
  }

  /** The proof type as it appears in the template string. */
  function ProofName(t: IdentityStore.ProofType): (name: string)
    ensures |name| <= 11 && '_' !in name
  {
    match t
    case Age => "age"
    case Nationality => "nationality"
    case Identity => "identity"
  }

  /** `zk_${proofType}_proof`. */
  function ProofKey(t: IdentityStore.ProofType): (key: string)
    ensures 12 <= |key| <= 20
    ensures key[..3] == "zk_" && key[|key| - 6..] == "_proof"
  {
    var key := "zk_" + ProofName(t) + "_proof";
    assert key[|key| - 6..] == "_proof";
    key
  }

  /** Different proof types get different entries. */
  lemma ProofKeyInjective(t: IdentityStore.ProofType, u: IdentityStore.ProofType)
    requires ProofKey(t) == ProofKey(u)
    ensures t == u
  {
    var k := ProofKey(t);
    assert k[3..|k| - 6] == ProofName(t);
    assert ProofKey(u)[3..|ProofKey(u)| - 6] == ProofName(u);
  }

  /** `proofHash.substring(0, 64)`. */
  function ProofValue(proofHash: string): (value: string)
    ensures |value| == if |proofHash| <= MaxEntryLength then |proofHash| else MaxEntryLength
    ensures value <= proofHash
    ensures |proofHash| <= MaxEntryLength ==> value == proofHash
  {
    if |proofHash| <= MaxEntryLength then proofHash else proofHash[..MaxEntryLength]
  }

  const ProofPrefix := "Failed to store proof hash: "

  /** storeProofHash: the derived key and truncated value handed to
      storeDataEntry, failures rethrown with ProofPrefix. */
  function StoreProofHash(net: Network, publicKey: string, t: IdentityStore.ProofType, proofHash: string): (r: Result<string>)
    ensures r.Failure? ==> ProofPrefix + StorePrefix <= r.error
  {
    WrapFailure(StoreDataEntry(net, publicKey, ProofKey(t), ProofValue(proofHash)), ProofPrefix)
  }

  /** storeProofHash never trips a length guard: whatever the hash, the
      outcome is the network's, prefixed twice on failure. */
  lemma StoreProofHashPassesGuards(net: Network, publicKey: string, t: IdentityStore.ProofType, proofHash: string)
    ensures StoreProofHash(net, publicKey, t, proofHash)
         == WrapFailure(WrapFailure(LoadAndSubmit(net, publicKey, ProofKey(t), ProofValue(proofHash)), StorePrefix), ProofPrefix)
  {
  }

  /** readDataEntry: `null` when loading fails, when the account has no
      data, when the entry is missing or when its stored value is the empty
      string; otherwise the stored base64 value decoded as UTF-8. */
  function ReadDataEntry(net: Network, decodeBase64: string -> string, publicKey: string, key: string): (r: Option<string>)
    ensures r.Some? <==>
      net.loadAccount(publicKey).Success? && net.loadAccount(publicKey).value.dataAttr.Some? &&
      key in net.loadAccount(publicKey).value.dataAttr.value && net.loadAccount(publicKey).value.dataAttr.value[key] != ""
    ensures r.Some? ==> r.value == decodeBase64(net.loadAccount(publicKey).value.dataAttr.value[key])
  {
    match net.loadAccount(publicKey)
    case Failure(_) => None
    case Success(account) =>
      match account.dataAttr
      case None => None
      case Some(entries) =>
        if key !in entries || entries[key] == "" then None else Some(decodeBase64(entries[key]))
  }

  /** readProofHash: readDataEntry under the derived key, so a value exactly
      when the loaded account holds a non-empty entry named `zk_<type>_proof`. */
  function ReadProofHash(net: Network, decodeBase64: string -> string, publicKey: string, t: IdentityStore.ProofType): (r: Option<string>)
    ensures r.Some? <==>
      net.loadAccount(publicKey).Success? && net.loadAccount(publicKey).value.dataAttr.Some? &&
      ProofKey(t) in net.loadAccount(publicKey).value.dataAttr.value &&
      net.loadAccount(publicKey).value.dataAttr.value[ProofKey(t)] != ""
    ensures r.Some? ==> r.value == decodeBase64(net.loadAccount(publicKey).value.dataAttr.value[ProofKey(t)])
  {
    ReadDataEntry(net, decodeBase64, publicKey, ProofKey(t))
  }

  /** Proof types do not share entries: each type is read under its own
      key, and no other type's store writes that key. */
  lemma ProofEntriesAreSeparate(t: IdentityStore.ProofType, u: IdentityStore.ProofType)
    requires t != u
    ensures ProofKey(t) != ProofKey(u)
  {
    if ProofKey(t) == ProofKey(u) {
      ProofKeyInjective(t, u);
    }
  }

  /** Reading back a stored proof hash: when the account's entry under the
      key storeProofHash used holds the base64 form of the value it
      submitted, readProofHash returns that value, which is the hash itself
      when it fits in 64 characters. */
  lemma ReadBackStoredProof(net: Network, encodeBase64: string -> string, decodeBase64: string -> string,
                            publicKey: string, t: IdentityStore.ProofType, proofHash: string)
    requires proofHash != ""
    requires forall v :: v != "" ==> encodeBase64(v) != "" && decodeBase64(encodeBase64(v)) == v
    requires net.loadAccount(publicKey).Success? && net.loadAccount(publicKey).value.dataAttr.Some?
    requires var entries := net.loadAccount(publicKey).value.dataAttr.value;
             ProofKey(t) in entries && entries[ProofKey(t)] == encodeBase64(ProofValue(proofHash))
    ensures ReadProofHash(net, decodeBase64, publicKey, t) == Some(ProofValue(proofHash))
    ensures |proofHash| <= MaxEntryLength ==> ReadProofHash(net, decodeBase64, publicKey, t) == Some(proofHash)
  {
    assert ProofValue(proofHash) != "";
  }

  /** The balance of the first entry whose asset type is 'native', or "0"
      when there is none. */
  function NativeBalance(balances: seq<Balance>): (r: string)
    ensures (forall i :: 0 <= i < |balances| ==> balances[i].assetType != "native") ==> r == "0"
  {
    if balances == [] then "0"
    else if balances[0].assetType == "native" then balances[0].balance
    else
      var rest := NativeBalance(balances[1..]);
      assert forall i :: 1 <= i < |balances| ==> balances[i] == balances[1..][i - 1];
      rest
  }

  /** When entry i is the first native one, the native balance is its
      balance, whatever follows it. */
  lemma {:induction false} FirstNativeBalance(balances: seq<Balance>, i: nat)
    requires i < |balances| && balances[i].assetType == "native"
    requires forall j :: 0 <= j < i ==> balances[j].assetType != "native"
    ensures NativeBalance(balances) == balances[i].balance
    decreases i
  {
    if i > 0 {
      assert balances[0].assetType != "native";
      var rest := balances[1..];
      assert rest[i - 1] == balances[i];
      assert forall j :: 0 <= j < i - 1 ==> rest[j] == balances[j + 1];
      FirstNativeBalance(rest, i - 1);
    }
  }

  const BalancePrefix := "Failed to get balance: "

  /** getAccountBalance: the native balance of the loaded account; a load
      failure is rethrown with BalancePrefix. */
  function GetAccountBalance(net: Network, publicKey: string): (r: Result<string>)
    ensures r.Success? <==> net.loadAccount(publicKey).Success?
    ensures r.Success? ==> r.value == NativeBalance(net.loadAccount(publicKey).value.balances)
    ensures r.Failure? ==> r.error == BalancePrefix + net.loadAccount(publicKey).error
  {
    match net.loadAccount(publicKey)
    case Failure(e) => Failure(BalancePrefix + e)
    case Success(account) => Success(NativeBalance(account.balances))
  }
}
