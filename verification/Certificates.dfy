/** The parts of a parsed certificate that revocation checking reads, and the routines it calls whose
    source is not part of this model: hashes, signatures, name comparison and certificate parsing. */
module Certificates {
  import opened Input
  import opened Options
  import opened TimeValues
  import opened BitStrings

  type SignatureAlgorithm = nat

  /** The verdict of revocation checking, by OCSP or by CRL. */
  datatype RevocationStatus = GOOD | REVOKED | UNKNOWN

  datatype HashAlgorithm = Md2 | Md4 | Md5 | Sha1 | Sha256 | Sha384 | Sha512

  datatype Version = V1 | V2 | V3

  datatype Certificate = Certificate(
    version: Version, serialNumber: Bytes, issuerTlv: Bytes, subjectName: Option<Bytes>,
    normalizedIssuer: Bytes, normalizedSubject: Bytes, spki: Bytes, publicKey: Option<Bytes>,
    tbs: Bytes, signatureAlgorithm: Option<SignatureAlgorithm>, signature: Bytes,
    notBefore: GeneralizedTime, notAfter: GeneralizedTime,
    extendedKeyUsage: Option<seq<Bytes>>, keyUsage: Option<BitString>, isCa: Option<bool>)

  /** `signed(algorithm, data, signature, spki)` is the signature check; `dateValid(this, next)` holds
      when an update interval covers the verification time and is young enough. */
  datatype Routines = Routines(
    hash: (HashAlgorithm, Bytes) -> Bytes,
    signed: (SignatureAlgorithm, Bytes, Bytes, Bytes) -> bool,
    nameMatch: (Bytes, Bytes) -> bool,
    parseCertificate: Bytes -> Option<Certificate>,
    dateValid: (GeneralizedTime, Option<GeneralizedTime>) -> bool)

  datatype ParsedExtension = ParsedExtension(critical: bool, value: Bytes)

  /** Extensions by OID, as the parser returns them. */
  type Extensions = map<Bytes, ParsedExtension>

  /** The extension field of a structure: absent, unreadable, or a set of extensions. */
  datatype ExtensionField = Absent | Unreadable | Present(extensions: Extensions)

  predicate AnyCritical(extensions: Extensions, handled: set<Bytes>) {
    exists oid :: oid in extensions && oid !in handled && extensions[oid].critical
  }

  const KEY_USAGE_BIT_CRL_SIGN := 6
}
