/**
 Which vault records the agent exposes: the name filter and the loader that turns SSH records
 into public identities. Names are their UTF-8 bytes; a field that cannot be decrypted is `None`.
 */
module Identity {
  import opened Prelude
  import opened SshWire
  import opened Signer

  datatype KeyAlgorithm =
    | Ed25519Public | RsaPublic | EcdsaPublic(curve: EcdsaCurve)
    | DsaPublic | SecurityKeyPublic | OtherPublic

  /** What parsing an OpenSSH public key line yields; `blob` is `None` if it cannot be encoded. */
  datatype PublicKeyText = Unparsable | PublicKey(algorithm: KeyAlgorithm, blob: Option<seq<byte>>)

  datatype VaultRecord = VaultRecord(
    id: nat, isSsh: bool, name: Option<seq<byte>>, publicKey: Option<PublicKeyText>)

  datatype LoadedIdentity = LoadedIdentity(recordId: nat, name: seq<byte>, algo: SshAlgo, publicBlob: seq<byte>)

  datatype IdentityError = VaultAccess | ParsePublicKey | EncodePublicKey | UnsupportedAlgorithm

  /** `--only` names and the `--allow` pattern, the pattern as the predicate it decides. */
  datatype IdentityFilter = IdentityFilter(only: seq<seq<byte>>, allow: Option<seq<byte> -> bool>) {
    predicate Matches(name: seq<byte>) {
      (only == [] && allow.None?) || name in only || (allow.Some? && allow.value(name))
    }
  }

  function MapAlgorithm(algorithm: KeyAlgorithm): Option<SshAlgo> {
    match algorithm
    case Ed25519Public => Some(Ed25519)
    case RsaPublic => Some(Rsa)
    case EcdsaPublic(curve) => Some(Ecdsa(curve))
    case _ => None
  }

  /** What the loader makes of one record. */
  datatype Verdict = Skipped | Failed(error: IdentityError) | Loaded(identity: LoadedIdentity)

  function Examine(record: VaultRecord, filter: IdentityFilter): Verdict {
    if !record.isSsh then Skipped
    else if record.name.None? then Failed(VaultAccess)
    else if !filter.Matches(record.name.value) then Skipped
    else if record.publicKey.None? then Failed(VaultAccess)
    else match record.publicKey.value
      case Unparsable => Failed(ParsePublicKey)
      case PublicKey(algorithm, blob) =>
        var algo := MapAlgorithm(algorithm);
        if algo.None? then Failed(UnsupportedAlgorithm)
        else if blob.None? then Failed(EncodePublicKey)
        else Loaded(LoadedIdentity(record.id, record.name.value, algo.value, blob.value))
  }

  /** The outcome of examining the records in order and stopping at the first failure. */
  function LoadResult(records: seq<VaultRecord>, filter: IdentityFilter)
    : Result<seq<LoadedIdentity>, IdentityError>
  {
    if records == [] then Ok([])
    else match Examine(records[0], filter)
      case Failed(error) => Err(error)
      case Skipped => LoadResult(records[1..], filter)
      case Loaded(identity) =>
        match LoadResult(records[1..], filter)
        case Err(error) => Err(error)
        case Ok(rest) => Ok([identity] + rest)
  }

  /** `load_ssh_identities`: push one identity per selected record, returning at the first error. */
  method LoadSshIdentities(records: seq<VaultRecord>, filter: IdentityFilter)
    returns (result: Result<seq<LoadedIdentity>, IdentityError>)
    ensures result == LoadResult(records, filter)
  {
    var identities := [];
    assert records[0..] == records;
    assert forall rest: seq<LoadedIdentity> :: [] + rest == rest;
    for i := 0 to |records|
      invariant match LoadResult(records[i..], filter)
                case Ok(rest) => LoadResult(records, filter) == Ok(identities + rest)
                case Err(error) => LoadResult(records, filter) == Err(error)
    {
      var record := records[i];
      assert records[i..][1..] == records[i + 1..];
      if !record.isSsh {
        continue;
      }
      if record.name.None? {
        return Err(VaultAccess);
      }
      if !filter.Matches(record.name.value) {
        continue;
      }
      if record.publicKey.None? {
        return Err(VaultAccess);
      }
      if record.publicKey.value.Unparsable? {
        return Err(ParsePublicKey);
      }
      var algo := MapAlgorithm(record.publicKey.value.algorithm);
      if algo.None? {
        return Err(UnsupportedAlgorithm);
      }
      if record.publicKey.value.blob.None? {
        return Err(EncodePublicKey);
      }
      var identity := LoadedIdentity(record.id, record.name.value, algo.value, record.publicKey.value.blob.value);
      ghost var before := identities;
      identities := identities + [identity];
      assert forall rest :: identities + rest == before + ([identity] + rest);
    }
    assert records[|records|..] == [];
    assert identities + [] == identities;
    result := Ok(identities);
  }

  predicate Increasing(s: seq<nat>) {
    forall i, j :: 0 <= i < j < |s| ==> s[i] < s[j]
  }

  /** What `--only` and `--allow` promise: a restriction of either kind admits only the names one of them names. */
  predicate Admits(filter: IdentityFilter, name: seq<byte>) {
    filter.only != [] || filter.allow.Some? ==>
      name in filter.only || (filter.allow.Some? && filter.allow.value(name))
  }

  predicate Selected(records: seq<VaultRecord>, filter: IdentityFilter, j: nat) {
    j < |records| && records[j].isSsh && records[j].name.Some? && Admits(filter, records[j].name.value)
  }

  /** The agent signs for these algorithms only. */
  predicate SameAlgorithm(advertised: KeyAlgorithm, algo: SshAlgo) {
    match algo
    case Ed25519 => advertised == Ed25519Public
    case Rsa => advertised == RsaPublic
    case Ecdsa(curve) => advertised == EcdsaPublic(curve)
  }

  /** The identity shows the record under its own id and name, with the blob and algorithm of its public key. */
  predicate Shows(identity: LoadedIdentity, record: VaultRecord) {
    && identity.recordId == record.id && record.name == Some(identity.name)
    && record.publicKey.Some? && record.publicKey.value.PublicKey?
    && record.publicKey.value.blob == Some(identity.publicBlob)
    && SameAlgorithm(record.publicKey.value.algorithm, identity.algo)
  }

  /** Why a record that may be exposed, or whose name cannot even be read, stops the load. */
  ghost predicate Stops(record: VaultRecord, filter: IdentityFilter, error: IdentityError) {
    && record.isSsh && (record.name.Some? ==> Admits(filter, record.name.value))
    && match error
       case VaultAccess => record.name.None? || record.publicKey.None?
       case ParsePublicKey => record.name.Some? && record.publicKey == Some(Unparsable)
       case UnsupportedAlgorithm =>
         && record.name.Some? && record.publicKey.Some? && record.publicKey.value.PublicKey?
         && forall algo: SshAlgo :: !SameAlgorithm(record.publicKey.value.algorithm, algo)
       case EncodePublicKey =>
         && record.name.Some? && record.publicKey.Some? && record.publicKey.value.PublicKey?
         && record.publicKey.value.blob.None?
         && exists algo: SshAlgo :: SameAlgorithm(record.publicKey.value.algorithm, algo)
  }

  lemma MapAlgorithmIff(algorithm: KeyAlgorithm, algo: SshAlgo)
    ensures MapAlgorithm(algorithm) == Some(algo) <==> SameAlgorithm(algorithm, algo)
  {
  }

  /** One record in full: an error exactly for its reason, an identity exactly if the record is selected. */
  lemma ExaminedRecord(record: VaultRecord, filter: IdentityFilter, error: IdentityError)
    ensures Examine(record, filter) == Failed(error) <==> Stops(record, filter, error)
    ensures !Examine(record, filter).Failed? ==> (Examine(record, filter).Loaded? <==> Selected([record], filter, 0))
    ensures Examine(record, filter).Loaded? ==> Shows(Examine(record, filter).identity, record)
  {
    assert filter.Matches(if record.name.Some? then record.name.value else []) <==>
           Admits(filter, if record.name.Some? then record.name.value else []);
    if record.publicKey.Some? && record.publicKey.value.PublicKey? {
      var algorithm := record.publicKey.value.algorithm;
      forall algo { MapAlgorithmIff(algorithm, algo); }
      var mapped := MapAlgorithm(algorithm);
      assert mapped.Some? ==> SameAlgorithm(algorithm, mapped.value);
    }
  }

  /** The positions from `i` on of the SSH records whose name passes the filter. */
  function Positions(records: seq<VaultRecord>, filter: IdentityFilter, i: nat): (r: seq<nat>)
    requires i <= |records|
    ensures Increasing(r)
    ensures forall k :: 0 <= k < |r| ==> Selected(records, filter, r[k])
    ensures forall j: nat :: j in r <==> i <= j && Selected(records, filter, j)
    decreases |records| - i
  {
    if i == |records| then []
    else
      var rest := Positions(records, filter, i + 1);
      assert forall k :: 0 <= k < |rest| ==> rest[k] in rest;
      if Selected(records, filter, i) then [i] + rest else rest
  }

  lemma LoadedIffSelected(records: seq<VaultRecord>, filter: IdentityFilter, i: nat)
    requires i < |records| && !Examine(records[i], filter).Failed?
    ensures Examine(records[i], filter).Loaded? <==> Selected(records, filter, i)
  {
    ExaminedRecord(records[i], filter, VaultAccess);
    hide Examine;
  }

  lemma {:induction false} LoadedInOrder(records: seq<VaultRecord>, filter: IdentityFilter, i: nat)
    requires i <= |records| && LoadResult(records[i..], filter).Ok?
    ensures var origin, identities := Positions(records, filter, i), LoadResult(records[i..], filter).value;
            |identities| == |origin| &&
            forall k :: 0 <= k < |origin| ==> Examine(records[origin[k]], filter) == Loaded(identities[k])
    decreases |records| - i
  {
    if i < |records| {
      assert records[i..][0] == records[i] && records[i..][1..] == records[i + 1..];
      LoadedIffSelected(records, filter, i);
      hide Examine, Selected;
      LoadedInOrder(records, filter, i + 1);
      var first := Examine(records[i], filter);
      var origin, identities := Positions(records, filter, i), LoadResult(records[i..], filter).value;
      var origin', identities' := Positions(records, filter, i + 1), LoadResult(records[i + 1..], filter).value;
      assert if first.Loaded? then origin == [i] + origin' && identities == [first.identity] + identities'
             else origin == origin' && identities == identities';
      hide Positions, LoadResult;
      forall k | 0 <= k < |origin| ensures Examine(records[origin[k]], filter) == Loaded(identities[k]) {
        if first.Loaded? && k > 0 { assert origin[k] == origin'[k - 1] && identities[k] == identities'[k - 1]; }
      }
    }
  }

  /**
   A successful load exposes precisely the SSH records whose name the filter admits, in vault order:
   the k-th identity shows the k-th such record.
   */
  lemma LoadIsSelection(records: seq<VaultRecord>, filter: IdentityFilter)
    requires LoadResult(records, filter).Ok?
    ensures var origin, identities := Positions(records, filter, 0), LoadResult(records, filter).value;
            |identities| == |origin| && forall k :: 0 <= k < |origin| ==> Shows(identities[k], records[origin[k]])
  {
    assert records[0..] == records;
    LoadedInOrder(records, filter, 0);
    var origin, identities := Positions(records, filter, 0), LoadResult(records, filter).value;
    forall k | 0 <= k < |origin| ensures Shows(identities[k], records[origin[k]]) {
      ExaminedRecord(records[origin[k]], filter, VaultAccess);
    }
  }

  /** A failed load names the reason of the first record that stops it; without one the load succeeds. */
  lemma {:induction false} LoadFailsAtFirst(records: seq<VaultRecord>, filter: IdentityFilter)
    ensures LoadResult(records, filter).Ok? <==>
            forall j, error :: 0 <= j < |records| ==> !Stops(records[j], filter, error)
    ensures LoadResult(records, filter).Err? ==>
              exists j :: 0 <= j < |records| && Stops(records[j], filter, LoadResult(records, filter).error)
                          && forall i, error :: 0 <= i < j ==> !Stops(records[i], filter, error)
  {
    if records != [] {
      forall error { ExaminedRecord(records[0], filter, error); }
      var tail := records[1..];
      assert forall j :: 0 < j < |records| ==> records[j] == tail[j - 1];
      hide Stops, Examine;
      if Examine(records[0], filter).Failed? {
        assert Stops(records[0], filter, Examine(records[0], filter).error);
      } else {
        LoadFailsAtFirst(tail, filter);
        assert forall error :: !Stops(records[0], filter, error);
        if LoadResult(tail, filter).Err? {
          var j :| 0 <= j < |tail| && Stops(tail[j], filter, LoadResult(tail, filter).error)
            && forall i, error :: 0 <= i < j ==> !Stops(tail[i], filter, error);
          assert records[j + 1] == tail[j];
        }
      }
    }
  }
}
