/**
 The signing layer of the agent: which key a PEM yields, which signature variant the request
 flags select, and the wire form of the signature. The signature primitives themselves are a
 parameter (`Primitives`); a PEM is modelled by what its parser finds in it.
 */
module Signer {
  import opened Prelude
  import opened SshWire

  datatype EcdsaCurve = P256 | P384 | P521

  datatype SshAlgo = Ed25519 | Rsa | Ecdsa(curve: EcdsaCurve)

  datatype SignFlags = SignFlags(rsaSha256: bool, rsaSha512: bool)

  datatype Digest = Sha256 | Sha512

  datatype KeyMaterial =
    | Ed25519Key(seed: nat)
    | RsaKey(modulus: nat, modulusBits: nat)
    | EcdsaKey(curve: EcdsaCurve, scalar: nat)
    | OtherKey

  datatype Pem =
    | MalformedPem
    | PlainPem(key: KeyMaterial)
    | SealedPem(key: KeyMaterial, passphrase: string)

  datatype SignerError =
    | ParseKey | Decrypt | RsaKeyRejected | EcdsaSign
    | UnsupportedKeyType | UnexpectedPassphrase | MissingPassphrase

  /** The signature libraries: any functions of key and message; only ECDSA can fail. */
  datatype Primitives = Primitives(
    ed25519: (nat, seq<byte>) -> seq<byte>,
    rsa: (nat, Digest, seq<byte>) -> seq<byte>,
    ecdsa: (EcdsaCurve, nat, seq<byte>) -> Option<seq<byte>>)

  const MIN_RSA_BITS: nat := 2048

  function Ascii(s: string): (b: seq<byte>)
    ensures |b| == |s|
  {
    seq(|s|, i requires 0 <= i < |s| => s[i] as int % 256)
  }

  function CurveName(curve: EcdsaCurve): (name: string)
    ensures |name| == 19
  {
    match curve
    case P256 => "ecdsa-sha2-nistp256"
    case P384 => "ecdsa-sha2-nistp384"
    case P521 => "ecdsa-sha2-nistp521"
  }

  /** The label `wire_name` puts in the audit row for an advertised algorithm. */
  function WireName(algo: SshAlgo, flags: SignFlags): (name: string)
    ensures |name| < 32
  {
    match algo
    case Ed25519 => "ssh-ed25519"
    case Rsa => if flags.rsaSha512 then "rsa-sha2-512" else "rsa-sha2-256"
    case Ecdsa(curve) => CurveName(curve)
  }

  /** Names of different curves differ as bytes. */
  lemma CurveNamesDiffer(a: EcdsaCurve, b: EcdsaCurve)
    ensures Ascii(CurveName(a)) == Ascii(CurveName(b)) <==> a == b
  {
    assert Ascii(CurveName(P256))[16] == '2' as int && Ascii(CurveName(P384))[16] == '3' as int;
    assert Ascii(CurveName(P521))[16] == '5' as int;
  }

  /** The three `from_openssh` constructors, selected by the algorithm the index advertises. */
  function LoadKey(algo: SshAlgo, pem: Pem, passphrase: Option<string>): Result<KeyMaterial, SignerError> {
    match pem
    case MalformedPem => Err(ParseKey)
    case SealedPem(key, secret) =>
      if passphrase.None? then Err(MissingPassphrase)
      else if passphrase.value != secret then Err(Decrypt)
      else CheckFamily(algo, key)
    case PlainPem(key) =>
      if passphrase.Some? then Err(UnexpectedPassphrase) else CheckFamily(algo, key)
  }

  function CheckFamily(algo: SshAlgo, key: KeyMaterial): Result<KeyMaterial, SignerError> {
    match (algo, key)
    case (Ed25519, Ed25519Key(_)) => Ok(key)
    // The key size is taken in whole bytes before it is compared with the minimum.
    case (Rsa, RsaKey(_, bits)) => if (bits + 7) / 8 * 8 < MIN_RSA_BITS then Err(RsaKeyRejected) else Ok(key)
    case (Ecdsa(_), EcdsaKey(_, _)) => Ok(key)
    case _ => Err(UnsupportedKeyType)
  }

  /** `string <algorithm>` followed by `string <signature>`, length prefixes and all. */
  function WireSignature(alg: string, sig: seq<byte>): seq<byte> {
    U32Bytes(|alg|) + Ascii(alg) + U32Bytes(|sig|) + sig
  }

  function SignWith(prims: Primitives, key: KeyMaterial, data: seq<byte>, flags: SignFlags)
    : Result<seq<byte>, SignerError>
  {
    match key
    case Ed25519Key(seed) => Ok(WireSignature("ssh-ed25519", prims.ed25519(seed, data)))
    case RsaKey(modulus, _) =>
      if flags.rsaSha512
      then Ok(WireSignature("rsa-sha2-512", prims.rsa(modulus, Sha512, data)))
      else Ok(WireSignature("rsa-sha2-256", prims.rsa(modulus, Sha256, data)))
    case EcdsaKey(curve, scalar) =>
      (match prims.ecdsa(curve, scalar, data)
       case None => Err(EcdsaSign)
       case Some(der) => Ok(WireSignature(CurveName(curve), der)))
    case OtherKey => Err(UnsupportedKeyType)
  }

  /** Decode the key, sign, drop the key. */
  function Sign(prims: Primitives, algo: SshAlgo, pem: Pem, passphrase: Option<string>,
                data: seq<byte>, flags: SignFlags): Result<seq<byte>, SignerError>
  {
    match LoadKey(algo, pem, passphrase)
    case Err(e) => Err(e)
    case Ok(key) => SignWith(prims, key, data, flags)
  }

  /** A signature blob starts with the string naming its algorithm; the rest is one string. */
  lemma WireSignatureParses(alg: string, sig: seq<byte>)
    requires |alg| < TWO32
    ensures ReadString(WireSignature(alg, sig)) == Some((Ascii(alg), EncodeString(sig)))
    ensures ReadString(EncodeString(sig)) == Some((sig, [])) <==> |sig| < TWO32
  {
    assert WireSignature(alg, sig) == EncodeString(Ascii(alg)) + EncodeString(sig);
    StringRoundTripIff(Ascii(alg), EncodeString(sig));
    assert EncodeString(sig) + [] == EncodeString(sig);
    StringRoundTripIff(sig, []);
  }

  /** A private key file yields its key to no passphrase if it is plain, to its own passphrase if it is sealed. */
  predicate Opens(pem: Pem, passphrase: Option<string>, key: KeyMaterial) {
    match pem
    case MalformedPem => false
    case PlainPem(held) => held == key && passphrase.None?
    case SealedPem(held, secret) => held == key && passphrase == Some(secret)
  }

  /** The key is of the advertised family; an RSA key fills at least 256 bytes. */
  predicate Usable(algo: SshAlgo, key: KeyMaterial) {
    match algo
    case Ed25519 => key.Ed25519Key?
    case Rsa => key.RsaKey? && key.modulusBits > 2040
    case Ecdsa(_) => key.EcdsaKey?
  }

  lemma LoadKeyIff(algo: SshAlgo, pem: Pem, passphrase: Option<string>, key: KeyMaterial)
    ensures LoadKey(algo, pem, passphrase) == Ok(key) <==> Opens(pem, passphrase, key) && Usable(algo, key)
  {
  }

  /** Which error a key file that yields no usable key is reported with. */
  lemma LoadKeyFailsAs(algo: SshAlgo, pem: Pem, passphrase: Option<string>, error: SignerError)
    ensures LoadKey(algo, pem, passphrase) == Err(error) <==>
            match error
            case ParseKey => pem.MalformedPem?
            case MissingPassphrase => pem.SealedPem? && passphrase.None?
            case Decrypt => pem.SealedPem? && passphrase.Some? && passphrase.value != pem.passphrase
            case UnexpectedPassphrase => pem.PlainPem? && passphrase.Some?
            case RsaKeyRejected =>
              && algo == Rsa && !pem.MalformedPem? && pem.key.RsaKey? && pem.key.modulusBits <= 2040
              && Opens(pem, passphrase, pem.key)
            case UnsupportedKeyType =>
              && !pem.MalformedPem? && Opens(pem, passphrase, pem.key) && !Usable(algo, pem.key)
              && !(algo == Rsa && pem.key.RsaKey?)
            case EcdsaSign => false
  {
  }

  /** The algorithm a key signs by, and the raw signature it makes; `wantsSha512` matters to RSA only. */
  function RawSignature(prims: Primitives, key: KeyMaterial, data: seq<byte>, wantsSha512: bool)
    : Option<(string, seq<byte>)>
  {
    match key
    case Ed25519Key(seed) => Some(("ssh-ed25519", prims.ed25519(seed, data)))
    case RsaKey(modulus, _) =>
      Some(if wantsSha512 then ("rsa-sha2-512", prims.rsa(modulus, Sha512, data))
           else ("rsa-sha2-256", prims.rsa(modulus, Sha256, data)))
    case EcdsaKey(curve, scalar) =>
      var name := match curve
                  case P256 => "ecdsa-sha2-nistp256"
                  case P384 => "ecdsa-sha2-nistp384"
                  case P521 => "ecdsa-sha2-nistp521";
      (match prims.ecdsa(curve, scalar, data)
       case Some(der) => Some((name, der))
       case None => None)
    case OtherKey => None
  }

  /**
   Signing with a key file succeeds exactly with a usable key in it, and then yields name and signature
   as two strings.
   */
  lemma SignIff(prims: Primitives, algo: SshAlgo, pem: Pem, passphrase: Option<string>,
                data: seq<byte>, flags: SignFlags, blob: seq<byte>)
    ensures Sign(prims, algo, pem, passphrase, data, flags) == Ok(blob) <==>
            exists key :: Opens(pem, passphrase, key) && Usable(algo, key)
                          && var raw := RawSignature(prims, key, data, flags.rsaSha512);
                             raw.Some? && blob == EncodeString(Ascii(raw.value.0)) + EncodeString(raw.value.1)
  {
    forall key { LoadKeyIff(algo, pem, passphrase, key); }
    hide LoadKey, CheckFamily, Usable;
    var loaded := LoadKey(algo, pem, passphrase);
    if loaded.Ok? {
      assert Opens(pem, passphrase, loaded.value) && Usable(algo, loaded.value);
      var raw := RawSignature(prims, loaded.value, data, flags.rsaSha512);
      if raw.Some? {
        assert WireSignature(raw.value.0, raw.value.1) == EncodeString(Ascii(raw.value.0)) + EncodeString(raw.value.1);
      }
    }
  }

  /** What a private key file holds agrees with the advertised curve, if one is advertised. */
  predicate CurveAgrees(algo: SshAlgo, pem: Pem) {
    algo.Ecdsa? && !pem.MalformedPem? && pem.key.EcdsaKey? ==> pem.key.curve == algo.curve
  }

  /**
   The algorithm string decoded from the front of a returned signature is the name the audit row
   records, for every flag combination, exactly when the stored key's curve is the advertised one.
   */
  lemma AuditNameIsBlobNameIff(prims: Primitives, algo: SshAlgo, pem: Pem, passphrase: Option<string>,
                               data: seq<byte>, flags: SignFlags)
    requires Sign(prims, algo, pem, passphrase, data, flags).Ok?
    ensures var parsed := ReadString(Sign(prims, algo, pem, passphrase, data, flags).value);
            parsed.Some? &&
            (parsed.value.0 == Ascii(WireName(algo, flags)) <==> CurveAgrees(algo, pem))
  {
    var key := LoadKey(algo, pem, passphrase).value;
    match key {
      case Ed25519Key(seed) => WireSignatureParses("ssh-ed25519", prims.ed25519(seed, data));
      case RsaKey(modulus, _) =>
        WireSignatureParses("rsa-sha2-512", prims.rsa(modulus, Sha512, data));
        WireSignatureParses("rsa-sha2-256", prims.rsa(modulus, Sha256, data));
      case EcdsaKey(curve, scalar) =>
        WireSignatureParses(CurveName(curve), prims.ecdsa(curve, scalar, data).value);
        CurveNamesDiffer(curve, algo.curve);
    }
  }

  /** The mismatch is a real case: a key of any curve signs under any other advertised curve, by its own name. */
  lemma MismatchedCurveSigns(prims: Primitives, advertised: EcdsaCurve, curve: EcdsaCurve, scalar: nat,
                             data: seq<byte>, flags: SignFlags)
    requires curve != advertised && prims.ecdsa(curve, scalar, data).Some?
    ensures var signed := Sign(prims, Ecdsa(advertised), PlainPem(EcdsaKey(curve, scalar)), None, data, flags);
            && signed.Ok? && ReadString(signed.value).Some?
            && ReadString(signed.value).value.0 == Ascii(CurveName(curve)) != Ascii(WireName(Ecdsa(advertised), flags))
  {
    WireSignatureParses(CurveName(curve), prims.ecdsa(curve, scalar, data).value);
    CurveNamesDiffer(curve, advertised);
  }

  /**
   The flags choose the digest the way RFC 8332 names it: with an RSA key the blob decodes to a
   name and a raw signature made with exactly the digest of that name, SHA-512 whenever it is
   requested and SHA-256 in every other case, with nothing after the two strings.
   */
  lemma RsaVariantFollowsFlags(prims: Primitives, pem: Pem, passphrase: Option<string>,
                               data: seq<byte>, flags: SignFlags)
    requires Sign(prims, Rsa, pem, passphrase, data, flags).Ok?
    requires forall n, d, m :: |prims.rsa(n, d, m)| < TWO32
    ensures !pem.MalformedPem? && pem.key.RsaKey?
    ensures var digest := if flags.rsaSha512 then Sha512 else Sha256;
            var name := if digest == Sha512 then "rsa-sha2-512" else "rsa-sha2-256";
            var first := ReadString(Sign(prims, Rsa, pem, passphrase, data, flags).value);
            && first.Some? && first.value.0 == Ascii(name)
            && ReadString(first.value.1) == Some((prims.rsa(pem.key.modulus, digest, data), []))
  {
    var n := pem.key.modulus;
    WireSignatureParses("rsa-sha2-512", prims.rsa(n, Sha512, data));
    WireSignatureParses("rsa-sha2-256", prims.rsa(n, Sha256, data));
  }
}
