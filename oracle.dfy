/**
 * The read side of `LicenseOracle`: hash normalisation, the registry's
 * `licenses` and `isRevokable` reads with their error policy, the status
 * record built from them, and the batch query.
 *
 * The registry is a fixed external service; each of its two reads is a total
 * function from a 32-byte key to what the call produced (a return value, a
 * contract-logic error carrying its text, or any other failure).
 */
module Oracle {
  import opened Wrappers
  import opened Hex
  import opened RegistrySchema

  /** A content identifier as callers pass it: raw bytes or a (possibly `0x`-prefixed) hex string. */
  datatype HashInput = Raw(bytes: seq<Byte>) | Text(text: string)

  /** What one registry read produced. */
  datatype Call<+T> =
    | Returned(value: T)
    | LogicError(message: string)  // web3's ContractLogicError, with its text
    | Fault(message: string)       // any other exception: transport, decoding, ...

  /** The tuple `licenses(hash)` returns: owner address, SPDX id, timestamp, revoked flag. */
  datatype RawRecord = RawRecord(owner: string, spdx: string, timestamp: nat, revoked: bool)

  datatype Registry = Registry(
    abi: seq<AbiEntry>,
    licenses: Bytes32 -> Call<RawRecord>,
    isRevokable: Bytes32 -> Call<bool>)

  /** An oracle bound to one registry. */
  datatype LicenseOracle = LicenseOracle(registry: Registry)

  /** The exceptions that leave the oracle's operations. */
  datatype Error =
    | HexDecodeError               // ValueError from bytes.fromhex
    | WrongHashLength(length: nat) // ValueError("Content hash must be 32 bytes")
    | ContractLogicErrorRaised(message: string)
    | SchemaMismatch(cause: SchemaError)

  /** The warnings the read paths emit instead of raising. */
  datatype Warning = LicenseCheckFailed | RevokableCheckFailed

  /** A result together with the warnings emitted while computing it, in order. */
  datatype Logged<+T> = Logged(value: T, warnings: seq<Warning>)

  /** `get_license`'s tuple: owner, SPDX id and timestamp are `None` when there is no license. */
  datatype LicenseTuple = LicenseTuple(owner: Option<string>, spdx: Option<string>, timestamp: Option<nat>, revoked: bool)

  /** The dictionary `get_license_status` returns; `registeredAt` keeps the epoch seconds. */
  datatype LicenseStatus = LicenseStatus(
    exists_: bool,
    valid: bool,
    owner: Option<string>,
    license: Option<string>,
    registeredAt: Option<nat>,
    revoked: bool,
    revokable: bool)

  /** The address the registry reports for a hash that was never registered. */
  const ZeroAddress: string := "0x0000000000000000000000000000000000000000"

  /** The text that marks a contract-logic error as a revert. */
  const RevertMarker: string := "execution reverted"

  const NoLicense: LicenseTuple := LicenseTuple(None, None, None, false)

  /** `part` appears in `text` starting at index `i`. */
  predicate OccursAt(text: string, part: string, i: int) {
    0 <= i && i + |part| <= |text| && text[i..i + |part|] == part
  }

  /** Python's `part in text` on strings. */
  predicate Contains(text: string, part: string)
    ensures Contains(text, part) <==> exists i :: OccursAt(text, part, i)
    decreases |text|
  {
    if |text| < |part| then false
    else if text[..|part|] == part then assert OccursAt(text, part, 0); true
    else if |text| == 0 then false
    else
      var tail := text[1..];
      assert forall i :: OccursAt(tail, part, i) ==> OccursAt(text, part, i + 1) by {
        forall i | OccursAt(tail, part, i) ensures OccursAt(text, part, i + 1) {
          assert tail[i..i + |part|] == text[i + 1..i + 1 + |part|];
        }
      }
      assert forall i :: OccursAt(text, part, i) ==> i == 0 || OccursAt(tail, part, i - 1) by {
        forall i | OccursAt(text, part, i) && i > 0 ensures OccursAt(tail, part, i - 1) {
          assert tail[i - 1..i - 1 + |part|] == text[i..i + |part|];
        }
      }
      Contains(tail, part)
  }

  // ---------------------------------------------------------------- construction

  /** `__init__` after loading the contract: the oracle exists only if the ABI check passes. */
  function NewLicenseOracle(registry: Registry): (r: Result<LicenseOracle, Error>)
    ensures r.Ok? <==> forall k :: 0 <= k < |RequiredFunctions| ==> Conforms(FunctionTable(registry.abi), RequiredFunctions[k])
    ensures r.Err? ==> r.error.SchemaMismatch? && ValidateRegistry(registry.abi) == Err(r.error.cause)
  {
    match ValidateRegistry(registry.abi)
    case Ok(_) => Ok(LicenseOracle(registry))
    case Err(e) => Err(SchemaMismatch(e))
  }

  // ---------------------------------------------------------------- hash normaliser

  /** Only a lowercase `0x` prefix is removed before decoding. */
  function HexPayload(s: string): (p: string)
    ensures s == p || s == "0x" + p
    ensures s == "0x" + p <==> |s| >= 2 && s[..2] == "0x"
  {
    if |s| >= 2 && s[..2] == "0x" then s[2..] else s
  }

  /** `_normalize_hash_input`: the 32 bytes a hash input denotes, or the `ValueError` raised. */
  function NormalizeHashInput(h: HashInput): (r: Result<Bytes32, Error>)
    ensures h.Raw? ==> (r.Ok? <==> |h.bytes| == 32) && (r.Ok? ==> r.value == h.bytes)
    ensures h.Text? ==> (r.Ok? <==> FromHex(HexPayload(h.text)).Some? && |FromHex(HexPayload(h.text)).value| == 32)
    ensures h.Text? && r.Ok? ==> FromHex(HexPayload(h.text)) == Some(r.value)
    ensures r.Err? ==> r.error.HexDecodeError? || r.error.WrongHashLength?
  {
    var decoded :=
      match h
      case Raw(bs) => Some(bs)
      case Text(s) => FromHex(HexPayload(s));
    match decoded
    case None => Err(HexDecodeError)
    case Some(bs) => if |bs| != 32 then Err(WrongHashLength(|bs|)) else Ok(bs)
  }

  /** `"0x"` followed by 64 lowercase hex digits. */
  predicate IsCanonicalHex(s: string) {
    |s| == 66 && s[..2] == "0x" && forall i :: 2 <= i < 66 ==> IsLowerHexDigit(s[i])
  }

  function CanonicalHex(b: Bytes32): string {
    "0x" + ToHex(b)
  }

  /** `hash_to_bytes32`: the canonical text of the normalised hash. */
  function HashToBytes32(h: HashInput): (r: Result<string, Error>)
    ensures r.Ok? <==> NormalizeHashInput(h).Ok?
    ensures r.Ok? ==> IsCanonicalHex(r.value) && r.value == CanonicalHex(NormalizeHashInput(h).value)
    ensures r.Err? ==> r.error == NormalizeHashInput(h).error
  {
    match NormalizeHashInput(h)
    case Err(e) => Err(e)
    case Ok(b) => Ok(CanonicalHex(b))
  }

  /** The key of accepted text is `0x` plus its hex digits, prefix stripped, in lowercase. */
  lemma TextKeyIsLowercased(s: string)
    requires HashToBytes32(Text(s)).Ok?
    ensures var p := HexPayload(s);
      HashToBytes32(Text(s)).value == "0x" + seq(|p|, i requires 0 <= i < |p| && IsHexDigit(p[i]) => LowerChar(p[i]))
  {
    ToHexFromHex(HexPayload(s));
  }

  /** Text already in canonical form is its own key. */
  lemma CanonicalTextIsItsKey(s: string)
    requires IsCanonicalHex(s)
    ensures HashToBytes32(Text(s)) == Ok(s)
  {
    var p := HexPayload(s);
    assert p == s[2..];
    assert forall i :: 0 <= i < |p| ==> IsLowerHexDigit(p[i]);
    LowerHexIsPrinted(p);
    assert s == "0x" + p;
  }

  /** Normalisation succeeds on text only when it is 64 digits, or `0x` and 64 digits. */
  lemma NormalizedTextShape(s: string)
    requires NormalizeHashInput(Text(s)).Ok?
    ensures (|s| == 66 && s[..2] == "0x") || (|s| == 64 && s[..2] != "0x")
    ensures forall i :: (if s[..2] == "0x" then 2 else 0) <= i < |s| ==> IsHexDigit(s[i])
  {
  }

  /** An upper-case `0X` prefix is not stripped, and its `X` makes decoding fail. */
  lemma UpperPrefixRejected(t: string)
    ensures NormalizeHashInput(Text("0X" + t)) == Err(HexDecodeError)
  {
  }

  /** A byte string of any length other than 32 is refused with its length. */
  lemma WrongLengthRejected(bs: seq<Byte>)
    requires |bs| != 32
    ensures NormalizeHashInput(Raw(bs)) == Err(WrongHashLength(|bs|))
  {
  }

  /** The canonical text, the bare digits and the raw bytes all normalise to the same 32 bytes. */
  lemma {:induction false} NormalizeRoundTrip(b: Bytes32)
    ensures NormalizeHashInput(Text(CanonicalHex(b))) == Ok(b)
    ensures NormalizeHashInput(Text(ToHex(b))) == Ok(b)
    ensures NormalizeHashInput(Raw(b)) == Ok(b)
  {
    FromHexToHex(b);
    var s := CanonicalHex(b);
    assert s[2..] == ToHex(b);
    var t := ToHex(b);
    assert t[..2] != "0x" by {
      assert IsLowerHexDigit(t[1]);
    }
  }

  /** Every form of the same 32 bytes gets the same canonical text. */
  lemma SameBytesSameKey(b: Bytes32)
    ensures HashToBytes32(Raw(b)) == Ok(CanonicalHex(b))
    ensures HashToBytes32(Text(CanonicalHex(b))) == Ok(CanonicalHex(b))
    ensures HashToBytes32(Text(ToHex(b))) == Ok(CanonicalHex(b))
  {
    NormalizeRoundTrip(b);
  }

  /** Feeding `hash_to_bytes32`'s output back in returns it unchanged. */
  lemma HashToBytes32Idempotent(h: HashInput)
    requires HashToBytes32(h).Ok?
    ensures HashToBytes32(Text(HashToBytes32(h).value)) == HashToBytes32(h)
  {
    NormalizeRoundTrip(NormalizeHashInput(h).value);
  }

  /** Two inputs share a canonical key exactly when they denote the same bytes. */
  lemma CanonicalKeyInjective(h1: HashInput, h2: HashInput)
    requires HashToBytes32(h1).Ok? && HashToBytes32(h2).Ok?
    ensures HashToBytes32(h1) == HashToBytes32(h2) <==> NormalizeHashInput(h1) == NormalizeHashInput(h2)
  {
    var b1, b2 := NormalizeHashInput(h1).value, NormalizeHashInput(h2).value;
    if CanonicalHex(b1) == CanonicalHex(b2) {
      assert CanonicalHex(b1)[2..] == ToHex(b1);
      assert CanonicalHex(b2)[2..] == ToHex(b2);
      ToHexInjective(b1, b2);
    }
  }

  // ---------------------------------------------------------------- registry client

  /**
   * What a `licenses` read means, keeping apart the cases `get_license`
   * later collapses.
   */
  datatype ReadOutcome =
    | Malformed(error: Error)        // normalisation raised inside the try
    | Registered(record: RawRecord)  // a record with a non-zero owner
    | Unregistered                   // the zero-address sentinel
    | Reverted(message: string)      // a logic error mentioning "execution reverted"
    | Rejected(message: string)      // any other logic error
    | Failed(message: string)        // any other exception

  function ReadLicense(oracle: LicenseOracle, h: HashInput): (o: ReadOutcome)
    ensures o.Registered? ==> o.record.owner != ZeroAddress
    ensures o.Malformed? <==> NormalizeHashInput(h).Err?
    ensures o.Malformed? ==> o.error == NormalizeHashInput(h).error
    ensures NormalizeHashInput(h).Ok? ==>
      var call := oracle.registry.licenses(NormalizeHashInput(h).value);
      && (call.Returned? && call.value.owner != ZeroAddress ==> o == Registered(call.value))
      && (call.Returned? && call.value.owner == ZeroAddress ==> o == Unregistered)
      && (call.LogicError? && Contains(call.message, RevertMarker) ==> o == Reverted(call.message))
      && (call.LogicError? && !Contains(call.message, RevertMarker) ==> o == Rejected(call.message))
      && (call.Fault? ==> o == Failed(call.message))
  {
    match NormalizeHashInput(h)
    case Err(e) => Malformed(e)
    case Ok(b) =>
      match oracle.registry.licenses(b)
      case Returned(rec) => if rec.owner == ZeroAddress then Unregistered else Registered(rec)
      case LogicError(msg) => if Contains(msg, RevertMarker) then Reverted(msg) else Rejected(msg)
      case Fault(msg) => Failed(msg)
  }

  /**
   * `get_license`: a registered record comes back as it is; the sentinel, a
   * revert, a malformed hash and any non-logic failure all give the empty
   * tuple, the last two with a warning; a logic error without the revert text
   * is raised again.
   */
  function GetLicense(oracle: LicenseOracle, h: HashInput): (r: Result<Logged<LicenseTuple>, Error>)
    ensures r.Err? <==> ReadLicense(oracle, h).Rejected?
    ensures r.Err? ==> r.error == ContractLogicErrorRaised(ReadLicense(oracle, h).message)
    ensures r.Ok? ==> (r.value.value.owner.Some? <==> ReadLicense(oracle, h).Registered?)
    ensures r.Ok? && ReadLicense(oracle, h).Registered? ==>
      var rec := ReadLicense(oracle, h).record;
      r.value.value == LicenseTuple(Some(rec.owner), Some(rec.spdx), Some(rec.timestamp), rec.revoked)
    ensures r.Ok? && !ReadLicense(oracle, h).Registered? ==> r.value.value == NoLicense
    ensures r.Ok? ==> (r.value.warnings != [] <==> ReadLicense(oracle, h).Malformed? || ReadLicense(oracle, h).Failed?)
    ensures r.Ok? ==> r.value.warnings == [] || r.value.warnings == [LicenseCheckFailed]
  {
    match ReadLicense(oracle, h)
    case Registered(rec) => Ok(Logged(LicenseTuple(Some(rec.owner), Some(rec.spdx), Some(rec.timestamp), rec.revoked), []))
    case Unregistered => Ok(Logged(NoLicense, []))
    case Reverted(_) => Ok(Logged(NoLicense, []))
    case Rejected(msg) => Err(ContractLogicErrorRaised(msg))
    case Malformed(_) => Ok(Logged(NoLicense, [LicenseCheckFailed]))
    case Failed(_) => Ok(Logged(NoLicense, [LicenseCheckFailed]))
  }

  /** `is_licensed`: a present owner and no revocation. */
  function IsLicensed(oracle: LicenseOracle, h: HashInput): (r: Result<Logged<bool>, Error>)
    ensures r.Err? <==> GetLicense(oracle, h).Err?
    ensures r.Ok? ==> (r.value.value <==> ReadLicense(oracle, h).Registered? && !ReadLicense(oracle, h).record.revoked)
  {
    match GetLicense(oracle, h)
    case Err(e) => Err(e)
    case Ok(Logged(t, w)) => Ok(Logged(t.owner.Some? && !t.revoked, w))
  }

  /** `is_revokable`: the registry's answer, or `false` with a warning on any exception. */
  function IsRevokable(oracle: LicenseOracle, h: HashInput): (r: Logged<bool>)
    ensures r.value <==> NormalizeHashInput(h).Ok? && oracle.registry.isRevokable(NormalizeHashInput(h).value) == Returned(true)
    ensures r.warnings == [] <==> NormalizeHashInput(h).Ok? && oracle.registry.isRevokable(NormalizeHashInput(h).value).Returned?
    ensures r.warnings == [] || r.warnings == [RevokableCheckFailed]
  {
    match NormalizeHashInput(h)
    case Err(_) => Logged(false, [RevokableCheckFailed])
    case Ok(b) =>
      match oracle.registry.isRevokable(b)
      case Returned(v) => Logged(v, [])
      case _ => Logged(false, [RevokableCheckFailed])
  }

  // ---------------------------------------------------------------- status resolver

  /** The status of a hash without a license. */
  const AbsentStatus: LicenseStatus := LicenseStatus(false, false, None, None, None, false, false)

  /**
   * `get_license_status`. The revokability read happens only for a present
   * owner; `registeredAt` is dropped for a missing or zero timestamp.
   */
  function GetLicenseStatus(oracle: LicenseOracle, h: HashInput): (r: Result<Logged<LicenseStatus>, Error>)
    ensures r.Err? <==> GetLicense(oracle, h).Err?
    ensures r.Err? ==> r.error == GetLicense(oracle, h).error
  {
    match GetLicense(oracle, h)
    case Err(e) => Err(e)
    case Ok(Logged(t, w)) =>
      var exists_ := t.owner.Some?;
      var revokable := if exists_ then IsRevokable(oracle, h) else Logged(false, []);
      var status := LicenseStatus(
        exists_,
        exists_ && !t.revoked,
        t.owner,
        t.spdx,
        if t.timestamp.Some? && t.timestamp.value != 0 then t.timestamp else None,
        t.revoked,
        revokable.value);
      Ok(Logged(status, w + revokable.warnings))
  }

  /** `exists` means a registered record, and `valid` a registered record that is not revoked. */
  lemma StatusMeaning(oracle: LicenseOracle, h: HashInput)
    requires GetLicenseStatus(oracle, h).Ok?
    ensures var s := GetLicenseStatus(oracle, h).value.value;
      && (s.exists_ <==> ReadLicense(oracle, h).Registered?)
      && (s.valid <==> s.exists_ && !s.revoked)
      && (s.exists_ <==> s.owner.Some?)
  {
  }

  /** Without a registered record the status is the empty one, whatever the revokability read would say. */
  lemma AbsentStatusIgnoresRevokability(oracle: LicenseOracle, h: HashInput, other: Bytes32 -> Call<bool>)
    requires GetLicense(oracle, h).Ok? && !ReadLicense(oracle, h).Registered?
    ensures GetLicenseStatus(oracle, h) == Ok(Logged(AbsentStatus, GetLicense(oracle, h).value.warnings))
    ensures GetLicenseStatus(LicenseOracle(oracle.registry.(isRevokable := other)), h) == GetLicenseStatus(oracle, h)
  {
    var w := GetLicense(oracle, h).value.warnings;
    assert w + [] == w;
  }

  /** For a registered record every field comes from the record and `revokable` from the registry. */
  lemma RegisteredStatus(oracle: LicenseOracle, h: HashInput)
    requires ReadLicense(oracle, h).Registered?
    ensures var rec := ReadLicense(oracle, h).record;
      var b := NormalizeHashInput(h).value;
      GetLicenseStatus(oracle, h).Ok? &&
      GetLicenseStatus(oracle, h).value.value == LicenseStatus(
        true, !rec.revoked, Some(rec.owner), Some(rec.spdx),
        if rec.timestamp == 0 then None else Some(rec.timestamp),
        rec.revoked,
        oracle.registry.isRevokable(b) == Returned(true))
  {
  }

  /** `valid` in the status agrees with `is_licensed`, and both raise together. */
  lemma StatusAgreesWithIsLicensed(oracle: LicenseOracle, h: HashInput)
    ensures GetLicenseStatus(oracle, h).Ok? <==> IsLicensed(oracle, h).Ok?
    ensures GetLicenseStatus(oracle, h).Ok? ==>
      GetLicenseStatus(oracle, h).value.value.valid == IsLicensed(oracle, h).value.value
  {
  }

  /** A transport fault degrades to the empty status with a warning instead of raising. */
  lemma FaultDegradesToAbsent(oracle: LicenseOracle, h: HashInput)
    requires ReadLicense(oracle, h).Failed?
    ensures GetLicenseStatus(oracle, h) == Ok(Logged(AbsentStatus, [LicenseCheckFailed]))
  {
    assert [LicenseCheckFailed] + [] == [LicenseCheckFailed];
  }

  /** The status depends on the input only through the 32 bytes it denotes. */
  lemma StatusDependsOnlyOnBytes(oracle: LicenseOracle, h1: HashInput, h2: HashInput)
    requires NormalizeHashInput(h1).Ok? && NormalizeHashInput(h1) == NormalizeHashInput(h2)
    ensures GetLicenseStatus(oracle, h1) == GetLicenseStatus(oracle, h2)
  {
  }

  // ---------------------------------------------------------------- batch query

  /**
   * `batch_check_licenses`: inputs are taken in order, each key before its
   * status; a key that cannot be computed, or a status that raises, aborts the
   * whole batch with that exception. A later input with the same key replaces
   * the earlier entry.
   */
  function BatchCheckLicenses(oracle: LicenseOracle, hs: seq<HashInput>): (r: Result<Logged<map<string, LicenseStatus>>, Error>)
    ensures r.Ok? ==> |r.value.value| <= |hs|
    ensures r.Err? ==> r.error.HexDecodeError? || r.error.WrongHashLength? || r.error.ContractLogicErrorRaised?
  {
    if hs == [] then Ok(Logged(map[], []))
    else
      match BatchCheckLicenses(oracle, hs[..|hs| - 1])
      case Err(e) => Err(e)
      case Ok(Logged(m, w)) =>
        var h := hs[|hs| - 1];
        match HashToBytes32(h)
        case Err(e) => Err(e)
        case Ok(key) =>
          match GetLicenseStatus(oracle, h)
          case Err(e) => Err(e)
          case Ok(Logged(s, w')) => Ok(Logged(m[key := s], w + w'))
  }

  /** The input has a canonical key and its status does not raise. */
  predicate Resolves(oracle: LicenseOracle, h: HashInput) {
    HashToBytes32(h).Ok? && GetLicenseStatus(oracle, h).Ok?
  }

  /** The batch succeeds exactly when every input has a key and a status. */
  lemma {:induction false} BatchOkIff(oracle: LicenseOracle, hs: seq<HashInput>)
    ensures BatchCheckLicenses(oracle, hs).Ok? <==> forall i :: 0 <= i < |hs| ==> Resolves(oracle, hs[i])
  {
    if BatchCheckLicenses(oracle, hs).Ok? {
      forall i | 0 <= i < |hs| ensures Resolves(oracle, hs[i]) {
        BatchOkResolves(oracle, hs, i);
      }
    } else if forall i :: 0 <= i < |hs| ==> Resolves(oracle, hs[i]) {
      ResolvesBatchOk(oracle, hs);
    }
  }

  lemma {:induction false} BatchOkResolves(oracle: LicenseOracle, hs: seq<HashInput>, i: nat)
    requires BatchCheckLicenses(oracle, hs).Ok? && i < |hs|
    ensures Resolves(oracle, hs[i])
  {
    var n := |hs| - 1;
    BatchStep(oracle, hs);
    if i < n {
      BatchOkResolves(oracle, hs[..n], i);
      assert hs[..n][i] == hs[i];
    }
  }

  lemma {:induction false} ResolvesBatchOk(oracle: LicenseOracle, hs: seq<HashInput>)
    requires forall i :: 0 <= i < |hs| ==> Resolves(oracle, hs[i])
    ensures BatchCheckLicenses(oracle, hs).Ok?
  {
    if hs != [] {
      var n := |hs| - 1;
      forall i | 0 <= i < n ensures Resolves(oracle, hs[..n][i]) {
        assert hs[..n][i] == hs[i];
      }
      ResolvesBatchOk(oracle, hs[..n]);
      assert Resolves(oracle, hs[n]);
      BatchStep(oracle, hs);
    }
  }

  /** The exception one input raises in the comprehension: its key's if that fails, else its status's. */
  function InputError(oracle: LicenseOracle, h: HashInput): Error
    requires !Resolves(oracle, h)
  {
    if HashToBytes32(h).Err? then HashToBytes32(h).error else GetLicenseStatus(oracle, h).error
  }

  /** A failed batch raises the exception of the first input, in list order, that does not resolve. */
  lemma {:induction false} BatchErrIsFirstFailure(oracle: LicenseOracle, hs: seq<HashInput>)
    requires BatchCheckLicenses(oracle, hs).Err?
    ensures exists i ::
      && 0 <= i < |hs|
      && (forall j :: 0 <= j < i ==> Resolves(oracle, hs[j]))
      && !Resolves(oracle, hs[i])
      && BatchCheckLicenses(oracle, hs).error == InputError(oracle, hs[i])
  {
    var n := |hs| - 1;
    var init := hs[..n];
    assert forall j :: 0 <= j < n ==> init[j] == hs[j];
    if BatchCheckLicenses(oracle, init).Err? {
      BatchErrIsFirstFailure(oracle, init);
      var i :| && 0 <= i < |init|
               && (forall j :: 0 <= j < i ==> Resolves(oracle, init[j]))
               && !Resolves(oracle, init[i])
               && BatchCheckLicenses(oracle, init).error == InputError(oracle, init[i]);
      assert BatchCheckLicenses(oracle, hs).error == InputError(oracle, hs[i]);
    } else {
      BatchOkIff(oracle, init);
      BatchStep(oracle, hs);
      assert BatchCheckLicenses(oracle, hs).error == InputError(oracle, hs[n]);
    }
  }

  /** One more input: the batch succeeds when the shorter batch and the new input do. */
  lemma BatchStep(oracle: LicenseOracle, hs: seq<HashInput>)
    requires hs != []
    ensures BatchCheckLicenses(oracle, hs).Ok? <==>
      BatchCheckLicenses(oracle, hs[..|hs| - 1]).Ok? && Resolves(oracle, hs[|hs| - 1])
  {
  }

  /** A single malformed input makes the whole batch raise. */
  lemma MalformedInputAbortsBatch(oracle: LicenseOracle, hs: seq<HashInput>, i: nat)
    requires i < |hs| && NormalizeHashInput(hs[i]).Err?
    ensures BatchCheckLicenses(oracle, hs).Err?
  {
  }

  /** A successful batch is the batch of all but the last input, updated at the last input's key. */
  lemma BatchAppend(oracle: LicenseOracle, hs: seq<HashInput>)
    requires hs != [] && BatchCheckLicenses(oracle, hs).Ok?
    ensures var n := |hs| - 1;
      && BatchCheckLicenses(oracle, hs[..n]).Ok?
      && Resolves(oracle, hs[n])
      && BatchCheckLicenses(oracle, hs).value.value ==
         BatchCheckLicenses(oracle, hs[..n]).value.value[HashToBytes32(hs[n]).value := GetLicenseStatus(oracle, hs[n]).value.value]
  {
  }

  /** In a successful batch, each input's canonical key maps to that input's own status. */
  lemma {:induction false} BatchEntry(oracle: LicenseOracle, hs: seq<HashInput>, i: nat)
    requires BatchCheckLicenses(oracle, hs).Ok? && i < |hs|
    ensures HashToBytes32(hs[i]).Ok? && GetLicenseStatus(oracle, hs[i]).Ok?
    ensures var m := BatchCheckLicenses(oracle, hs).value.value;
      && HashToBytes32(hs[i]).value in m
      && m[HashToBytes32(hs[i]).value] == GetLicenseStatus(oracle, hs[i]).value.value
  {
    var n := |hs| - 1;
    var init := hs[..n];
    var last := hs[n];
    BatchAppend(oracle, hs);
    if i < n {
      assert init[i] == hs[i];
      BatchEntry(oracle, init, i);
      if HashToBytes32(hs[i]) == HashToBytes32(last) {
        CanonicalKeyInjective(hs[i], last);
        StatusDependsOnlyOnBytes(oracle, hs[i], last);
      }
    }
  }

  /** Every key of a successful batch is the canonical key of some input. */
  lemma {:induction false} BatchKeysFromInputs(oracle: LicenseOracle, hs: seq<HashInput>, key: string)
    requires BatchCheckLicenses(oracle, hs).Ok?
    requires key in BatchCheckLicenses(oracle, hs).value.value
    ensures exists i :: 0 <= i < |hs| && HashToBytes32(hs[i]) == Ok(key)
  {
    var n := |hs| - 1;
    var init := hs[..n];
    if HashToBytes32(hs[n]) != Ok(key) {
      BatchKeysFromInputs(oracle, init, key);
      var i :| 0 <= i < |init| && HashToBytes32(init[i]) == Ok(key);
      assert init[i] == hs[i];
    }
  }
}
