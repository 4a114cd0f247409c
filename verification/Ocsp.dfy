/** Revocation status from a stapled OCSP response (`ocsp.cc`; RFC 6960, section 4.2.2): the fold over
    single responses, the search for an authorized responder, and the whole check. */
module Ocsp {
  import opened Certificates
  import opened Input
  import opened ObjectIdentifiers
  import opened Options
  import opened TimeValues

  datatype ResponseDetails =
    | NOT_CHECKED | MISSING | PROVIDED | ERROR_RESPONSE | BAD_PRODUCED_AT | NO_MATCHING_RESPONSE
    | INVALID_DATE | PARSE_RESPONSE_ERROR | PARSE_RESPONSE_DATA_ERROR | UNHANDLED_CRITICAL_EXTENSION

  datatype CertId = CertId(algorithm: HashAlgorithm, issuerNameHash: Bytes, issuerKeyHash: Bytes, serialNumber: Bytes)

  /** A framed SingleResponse; `certId` is absent when the CertID does not parse. */
  datatype SingleResponse =
    | Malformed
    | SingleResponse(certId: Option<CertId>, status: RevocationStatus, thisUpdate: GeneralizedTime,
                     nextUpdate: Option<GeneralizedTime>, extensions: ExtensionField)

  datatype ResponderId = ByName(name: Option<Bytes>) | ByKeyHash(keyHash: Bytes)

  datatype ResponseData = ResponseData(responderId: ResponderId, producedAt: GeneralizedTime,
                                       responses: seq<SingleResponse>, extensions: ExtensionField)

  datatype Response = Response(successful: bool, data: Option<ResponseData>, dataTlv: Bytes,
                               algorithm: SignatureAlgorithm, signature: Bytes, certs: seq<Bytes>)

  const CT_SCT_OID: Bytes := [0x2B, 0x06, 0x01, 0x04, 0x01, 0xD6, 0x79, 0x02, 0x04, 0x05]
  const OCSP_SIGNING_OID: Bytes := [0x2b, 0x06, 0x01, 0x05, 0x05, 0x07, 0x03, 0x09]

  // ----- one single response

  predicate CertIdMatches(id: CertId, cert: Certificate, issuer: Certificate, r: Routines) {
    && id.algorithm !in {Md2, Md4, Md5}
    && r.hash(id.algorithm, cert.issuerTlv) == id.issuerNameHash
    && issuer.publicKey.Some?
    && r.hash(id.algorithm, issuer.publicKey.value) == id.issuerKeyHash
    && id.serialNumber == cert.serialNumber
  }

  /** Unsupported hashes, then name, key and serial number, one after the other. */
  method CheckCertIDMatchesCertificate(id: CertId, cert: Certificate, issuer: Certificate, r: Routines)
      returns (ok: bool)
    ensures ok <==>
      && id.algorithm in {Sha1, Sha256, Sha384, Sha512}
      && r.hash(id.algorithm, cert.issuerTlv) == id.issuerNameHash
      && issuer.publicKey.Some? && r.hash(id.algorithm, issuer.publicKey.value) == id.issuerKeyHash
      && id.serialNumber == cert.serialNumber
  {
    match id.algorithm {
      case Md2 | Md4 | Md5 => return false;
      case _ =>
    }
    if r.hash(id.algorithm, cert.issuerTlv) != id.issuerNameHash {
      return false;
    }
    if issuer.publicKey.None? {
      return false;
    }
    if r.hash(id.algorithm, issuer.publicKey.value) != id.issuerKeyHash {
      return false;
    }
    return id.serialNumber == cert.serialNumber;
  }

  /** What one entry contributes. A bad entry ends the search, and may say why in the details. */
  datatype Entry = Bad(why: Option<ResponseDetails>) | Irrelevant | OutOfDate | Current(status: RevocationStatus)

  /** Why an extension field is refused: it cannot be read, or holds a critical extension that is not
      handled. */
  function Refusal(f: ExtensionField, handled: set<Bytes>): Option<ResponseDetails> {
    match f
    case Absent => None
    case Unreadable => Some(PARSE_RESPONSE_DATA_ERROR)
    case Present(extensions) => if AnyCritical(extensions, handled) then Some(UNHANDLED_CRITICAL_EXTENSION) else None
  }

  function EntryOf(s: SingleResponse, cert: Certificate, issuer: Certificate, r: Routines): Entry {
    if s.Malformed? then Bad(None)
    else if Refusal(s.extensions, {CT_SCT_OID}).Some? then Bad(Refusal(s.extensions, {CT_SCT_OID}))
    else if s.certId.None? then Bad(None)
    else if !CertIdMatches(s.certId.value, cert, issuer, r) then Irrelevant
    else if !r.dateValid(s.thisUpdate, s.nextUpdate) then OutOfDate
    else Current(s.status)
  }

  // ----- the meaning of a list of entries

  /** The strictest status among matching, current entries: REVOKED before UNKNOWN before GOOD. */
  function Strictest(entries: seq<Entry>): RevocationStatus {
    if Current(REVOKED) in entries then REVOKED
    else if Current(UNKNOWN) in entries then UNKNOWN
    else if Current(GOOD) in entries then GOOD
    else UNKNOWN
  }

  predicate AnyCurrent(entries: seq<Entry>) {
    Current(GOOD) in entries || Current(REVOKED) in entries || Current(UNKNOWN) in entries
  }

  /** The best match found: a current entry, one that is out of date, or none. */
  function BestMatch(entries: seq<Entry>): ResponseDetails {
    if AnyCurrent(entries) then PROVIDED
    else if OutOfDate in entries then INVALID_DATE
    else NO_MATCHING_RESPONSE
  }

  /** The position of the first bad entry, or the length of the list. */
  function FirstBad(entries: seq<Entry>): (k: nat)
    ensures k <= |entries| && (k < |entries| ==> entries[k].Bad?) && forall i :: 0 <= i < k ==> !entries[i].Bad?
  {
    if entries == [] || entries[0].Bad? then 0 else 1 + FirstBad(entries[1..])
  }

  function Outcome(entries: seq<Entry>): (RevocationStatus, ResponseDetails) {
    var k := FirstBad(entries);
    if k == |entries| then (Strictest(entries), BestMatch(entries))
    else (UNKNOWN, if entries[k].why.Some? then entries[k].why.value else BestMatch(entries[..k]))
  }

  function Entries(responses: seq<SingleResponse>, cert: Certificate, issuer: Certificate,
                   r: Routines): (es: seq<Entry>)
    ensures |es| == |responses| && forall i :: 0 <= i < |es| ==> es[i] == EntryOf(responses[i], cert, issuer, r)
  {
    seq(|responses|, i requires 0 <= i < |responses| => EntryOf(responses[i], cert, issuer, r))
  }

  /** The loop: one pass, one status and one detail carried along. */
  method GetRevocationStatusForCert(data: ResponseData, cert: Certificate, issuer: Certificate, r: Routines)
    returns (status: RevocationStatus, details: ResponseDetails)
    ensures (status, details) == Outcome(Entries(data.responses, cert, issuer, r))
  {
    ghost var es := Entries(data.responses, cert, issuer, r);
    status, details := UNKNOWN, NO_MATCHING_RESPONSE;
    for i := 0 to |data.responses|
      invariant forall j :: 0 <= j < i ==> !es[j].Bad?
      invariant status == Strictest(es[..i]) && details == BestMatch(es[..i])
    {
      var single := data.responses[i];
      assert es[i] == EntryOf(single, cert, issuer, r);
      OneMore(es, i);
      if single.Malformed? {
        BadAt(es, i);
        return UNKNOWN, details;
      }
      var refusal := Refusal(single.extensions, {CT_SCT_OID});
      if refusal.Some? {
        BadAt(es, i);
        return UNKNOWN, refusal.value;
      }
      if single.certId.None? {
        BadAt(es, i);
        return UNKNOWN, details;
      }
      var matches := CheckCertIDMatchesCertificate(single.certId.value, cert, issuer, r);
      CertIdMeans(single.certId.value, cert, issuer, r);
      if !matches {
        continue;
      }
      if !r.dateValid(single.thisUpdate, single.nextUpdate) {
        if details != PROVIDED {
          details := INVALID_DATE;
        }
        continue;
      }
      if details != PROVIDED || status == GOOD || single.status == REVOKED {
        status := single.status;
      }
      details := PROVIDED;
    }
    assert es[..|es|] == es;
    NoBad(es);
  }

  lemma BadAt(es: seq<Entry>, k: nat)
    requires k < |es| && es[k].Bad? && forall i :: 0 <= i < k ==> !es[i].Bad?
    ensures FirstBad(es) == k
  {}

  lemma NoBad(es: seq<Entry>)
    requires forall i :: 0 <= i < |es| ==> !es[i].Bad?
    ensures FirstBad(es) == |es|
  {}

  lemma OneMore(es: seq<Entry>, i: nat)
    requires i < |es|
    ensures forall e: Entry :: e in es[..i + 1] <==> e in es[..i] || e == es[i]
  {
    assert es[..i + 1] == es[..i] + [es[i]];
  }

  /** The order of the entries does not matter to the status; nor to the details, if all can be used. */
  lemma OrderDoesNotMatter(a: seq<Entry>, b: seq<Entry>)
    requires multiset(a) == multiset(b)
    ensures Outcome(a).0 == Outcome(b).0
    ensures FirstBad(a) == |a| ==> Outcome(a) == Outcome(b)
  {
    forall e: Entry ensures e in a <==> e in b {
      assert e in a <==> e in multiset(a);
      assert e in b <==> e in multiset(b);
    }
    SameBadness(a, b);
    SameBadness(b, a);
  }

  lemma SameBadness(a: seq<Entry>, b: seq<Entry>)
    requires forall e: Entry :: e in a <==> e in b
    ensures FirstBad(a) == |a| ==> FirstBad(b) == |b|
  {
    if FirstBad(b) < |b| {
      var e := b[FirstBad(b)];
      assert e in a;
      var i :| 0 <= i < |a| && a[i] == e;
      assert !(i < FirstBad(a));
    }
  }

  /** One bad entry anywhere forces the status to UNKNOWN. */
  lemma BadEntryPoisons(es: seq<Entry>, i: nat)
    requires i < |es| && es[i].Bad?
    ensures Outcome(es).0 == UNKNOWN
  {}

  /** The stricter of two results; a result without a current entry says nothing. */
  function Combine(a: (RevocationStatus, ResponseDetails), b: (RevocationStatus, ResponseDetails))
      : (RevocationStatus, ResponseDetails) {
    if a.1 == PROVIDED && b.1 == PROVIDED then
      (if REVOKED in {a.0, b.0} then REVOKED else if UNKNOWN in {a.0, b.0} then UNKNOWN else GOOD, PROVIDED)
    else if a.1 == PROVIDED then a
    else if b.1 == PROVIDED then b
    else (UNKNOWN, if a.1 == INVALID_DATE || b.1 == INVALID_DATE then INVALID_DATE else NO_MATCHING_RESPONSE)
  }

  /** The result over two lists is made of the results over each. */
  lemma OutcomeOfConcatenation(a: seq<Entry>, b: seq<Entry>)
    requires FirstBad(a) == |a| && FirstBad(b) == |b|
    ensures Outcome(a + b) == Combine(Outcome(a), Outcome(b))
  {
    forall i | 0 <= i < |a + b| ensures !(a + b)[i].Bad? {
      if i >= |a| { assert (a + b)[i] == b[i - |a|]; }
    }
    NoBad(a + b);
    assert forall e: Entry :: e in a + b <==> e in a || e in b;
  }

  // ----- who signed the response

  predicate ResponderMatches(id: ResponderId, cert: Certificate, r: Routines) {
    match id
    case ByName(name) => name.Some? && cert.subjectName.Some? && r.nameMatch(name.value, cert.subjectName.value)
    case ByKeyHash(keyHash) => cert.publicKey.Some? && r.hash(Sha1, cert.publicKey.value) == keyHash
  }

  predicate SignsResponse(response: Response, cert: Certificate, r: Routines) {
    r.signed(response.algorithm, response.dataTlv, response.signature, cert.spki)
  }

  method CheckResponderIDMatchesCertificate(id: ResponderId, cert: Certificate, r: Routines) returns (ok: bool)
    ensures id.ByName? ==>
      (ok <==> id.name.Some? && cert.subjectName.Some? && r.nameMatch(id.name.value, cert.subjectName.value))
    ensures id.ByKeyHash? ==> (ok <==> cert.publicKey.Some? && r.hash(Sha1, cert.publicKey.value) == id.keyHash)
  {
    match id {
      case ByName(name) =>
        if name.None? || cert.subjectName.None? {
          return false;
        }
        return r.nameMatch(name.value, cert.subjectName.value);
      case ByKeyHash(keyHash) =>
        if cert.publicKey.None? {
          return false;
        }
        return r.hash(Sha1, cert.publicKey.value) == keyHash;
    }
  }

  /** A certificate the issuer has signed and that carries the OCSP signing purpose. */
  predicate AuthorizedResponder(responder: Certificate, issuer: Certificate, r: Routines) {
    && responder.signatureAlgorithm.Some?
    && r.signed(responder.signatureAlgorithm.value, responder.tbs, responder.signature, issuer.spki)
    && responder.extendedKeyUsage.Some?
    && OCSP_SIGNING_OID in responder.extendedKeyUsage.value
  }

  method VerifyAuthorizedResponderCert(responder: Certificate, issuer: Certificate, r: Routines) returns (ok: bool)
    ensures ok <==> AuthorizedResponder(responder, issuer, r)
  {
    if responder.signatureAlgorithm.None?
       || !r.signed(responder.signatureAlgorithm.value, responder.tbs, responder.signature, issuer.spki) {
      return false;
    }
    if responder.extendedKeyUsage.None? {
      return false;
    }
    var purposes := responder.extendedKeyUsage.value;
    for i := 0 to |purposes|
      invariant OCSP_SIGNING_OID !in purposes[..i]
    {
      if purposes[i] == OCSP_SIGNING_OID {
        return true;
      }
    }
    return false;
  }

  /** The issuer itself signed, or some attached certificate that the issuer authorized did. */
  ghost predicate Authentic(response: Response, id: ResponderId, issuer: Certificate, r: Routines) {
    || (ResponderMatches(id, issuer, r) && SignsResponse(response, issuer, r))
    || exists k :: 0 <= k < |response.certs| && Delegate(response, k, id, issuer, r)
  }

  ghost predicate Delegate(response: Response, k: nat, id: ResponderId, issuer: Certificate, r: Routines)
    requires k < |response.certs|
  {
    var cert := r.parseCertificate(response.certs[k]);
    && cert.Some?
    && ResponderMatches(id, cert.value, r)
    && AuthorizedResponder(cert.value, issuer, r)
    && SignsResponse(response, cert.value, r)
  }

  method VerifyOCSPResponseSignature(response: Response, data: ResponseData, issuer: Certificate, r: Routines)
      returns (ok: bool)
    ensures ok <==> Authentic(response, data.responderId, issuer, r)
  {
    var matches := CheckResponderIDMatchesCertificate(data.responderId, issuer, r);
    if matches && r.signed(response.algorithm, response.dataTlv, response.signature, issuer.spki) {
      return true;
    }
    for k := 0 to |response.certs|
      invariant forall j :: 0 <= j < k ==> !Delegate(response, j, data.responderId, issuer, r)
    {
      var cert := r.parseCertificate(response.certs[k]);
      if cert.None? {
        continue;
      }
      matches := CheckResponderIDMatchesCertificate(data.responderId, cert.value, r);
      if !matches {
        continue;
      }
      var authorized := VerifyAuthorizedResponderCert(cert.value, issuer, r);
      if !authorized {
        continue;
      }
      if r.signed(response.algorithm, response.dataTlv, response.signature, cert.value.spki) {
        assert Delegate(response, k, data.responderId, issuer, r);
        return true;
      }
    }
    return false;
  }

  // ----- the whole check

  /** The response is one whose entries may be looked at: successful, readable, without unhandled
      critical extensions, produced while the certificate was valid. */
  predicate Usable(raw: Bytes, response: Option<Response>, cert: Option<Certificate>, issuer: Option<Certificate>) {
    && raw != []
    && response.Some? && response.value.successful && response.value.data.Some?
    && Refusal(response.value.data.value.extensions, {}).None?
    && cert.Some? && issuer.Some?
    && !Before(response.value.data.value.producedAt, cert.value.notBefore)
    && !Before(cert.value.notAfter, response.value.data.value.producedAt)
  }

  /** What stands in the way of looking at the entries: the first obstacle, in the order of the steps. */
  function Obstacle(raw: Bytes, response: Option<Response>, cert: Option<Certificate>,
                    issuer: Option<Certificate>): (o: Option<ResponseDetails>)
    ensures o.None? <==> Usable(raw, response, cert, issuer)
    ensures o.Some? ==> o.value !in {PROVIDED, NO_MATCHING_RESPONSE, INVALID_DATE}
  {
    if raw == [] then Some(MISSING)
    else if response.None? then Some(PARSE_RESPONSE_ERROR)
    else if !response.value.successful then Some(ERROR_RESPONSE)
    else if response.value.data.None? then Some(PARSE_RESPONSE_DATA_ERROR)
    else if Refusal(response.value.data.value.extensions, {}).Some? then
      Refusal(response.value.data.value.extensions, {})
    else if cert.None? || issuer.None? then Some(NOT_CHECKED)
    else if !Usable(raw, response, cert, issuer) then Some(BAD_PRODUCED_AT)
    else None
  }

  /** The first obstacle, by its name. */
  lemma ObstacleMeans(raw: Bytes, response: Option<Response>, cert: Option<Certificate>, issuer: Option<Certificate>)
    ensures Obstacle(raw, response, cert, issuer) == Some(MISSING) <==> raw == []
    ensures Obstacle(raw, response, cert, issuer) == Some(PARSE_RESPONSE_ERROR) <==> raw != [] && response == None
    ensures Obstacle(raw, response, cert, issuer) == Some(ERROR_RESPONSE) <==>
      raw != [] && response.Some? && !response.value.successful
    ensures Obstacle(raw, response, cert, issuer) == Some(PARSE_RESPONSE_DATA_ERROR) <==>
      && raw != [] && response.Some? && response.value.successful
      && (response.value.data.Some? ==> response.value.data.value.extensions.Unreadable?)
    ensures Obstacle(raw, response, cert, issuer) == Some(UNHANDLED_CRITICAL_EXTENSION) <==>
      && raw != [] && response.Some? && response.value.successful && response.value.data.Some?
      && response.value.data.value.extensions.Present?
      && exists oid :: oid in response.value.data.value.extensions.extensions
           && response.value.data.value.extensions.extensions[oid].critical
    ensures Obstacle(raw, response, cert, issuer) in {None, Some(NOT_CHECKED), Some(BAD_PRODUCED_AT)} <==>
      && raw != [] && response.Some? && response.value.successful && response.value.data.Some?
      && Refusal(response.value.data.value.extensions, {}).None?
    ensures Obstacle(raw, response, cert, issuer) == Some(NOT_CHECKED) ==> cert == None || issuer == None
    ensures Obstacle(raw, response, cert, issuer) == Some(BAD_PRODUCED_AT) ==> cert.Some? && issuer.Some?
  {}

  /** Why extensions are refused, in a response or in an entry. */
  lemma RefusalMeans(f: ExtensionField, handled: set<Bytes>)
    ensures f.Absent? ==> Refusal(f, handled) == None
    ensures f.Unreadable? ==> Refusal(f, handled) == Some(PARSE_RESPONSE_DATA_ERROR)
    ensures f.Present? ==>
      Refusal(f, handled) ==
        if exists oid :: oid in f.extensions && oid !in handled && f.extensions[oid].critical
        then Some(UNHANDLED_CRITICAL_EXTENSION) else None
  {}

  /** `response` is what the parser makes of `raw`; a missing certificate is one that did not parse. */
  method CheckOCSP(raw: Bytes, response: Option<Response>, cert: Option<Certificate>, issuer: Option<Certificate>,
                   r: Routines)
    returns (status: RevocationStatus, details: ResponseDetails)
    ensures status == CheckedStatus(raw, response, cert, issuer, r)
    ensures Usable(raw, response, cert, issuer) ==>
      details == Outcome(Entries(response.value.data.value.responses, cert.value, issuer.value, r)).1
    ensures !Usable(raw, response, cert, issuer) ==> Some(details) == Obstacle(raw, response, cert, issuer)
    // a status other than UNKNOWN rests on a single response for this very certificate
    ensures status != UNKNOWN ==>
      && response.Some? && response.value.data.Some? && cert.Some? && issuer.Some? && issuer.value.publicKey.Some?
      && exists i :: 0 <= i < |response.value.data.value.responses| &&
           var s := response.value.data.value.responses[i];
           && s.SingleResponse? && s.status == status && s.certId.Some?
           && s.certId.value.serialNumber == cert.value.serialNumber
           && s.certId.value.algorithm in {Sha1, Sha256, Sha384, Sha512}
           && s.certId.value.issuerNameHash == r.hash(s.certId.value.algorithm, cert.value.issuerTlv)
           && s.certId.value.issuerKeyHash == r.hash(s.certId.value.algorithm, issuer.value.publicKey.value)
           && r.dateValid(s.thisUpdate, s.nextUpdate)
    // and on a signature over the response data, by the issuer or by an attached certificate
    ensures status != UNKNOWN ==>
      || r.signed(response.value.algorithm, response.value.dataTlv, response.value.signature, issuer.value.spki)
      || exists k :: 0 <= k < |response.value.certs| && r.parseCertificate(response.value.certs[k]).Some? &&
           r.signed(response.value.algorithm, response.value.dataTlv, response.value.signature,
                    r.parseCertificate(response.value.certs[k]).value.spki)
  {
    status, details := UNKNOWN, NOT_CHECKED;
    if raw == [] {
      return UNKNOWN, MISSING;
    }
    if response.None? {
      return UNKNOWN, PARSE_RESPONSE_ERROR;
    }
    if !response.value.successful {
      return UNKNOWN, ERROR_RESPONSE;
    }
    if response.value.data.None? {
      return UNKNOWN, PARSE_RESPONSE_DATA_ERROR;
    }
    var data := response.value.data.value;
    var refusal := Refusal(data.extensions, {});
    if refusal.Some? {
      return UNKNOWN, refusal.value;
    }
    if cert.None? || issuer.None? {
      return UNKNOWN, NOT_CHECKED;
    }
    if Before(data.producedAt, cert.value.notBefore) || Before(cert.value.notAfter, data.producedAt) {
      return UNKNOWN, BAD_PRODUCED_AT;
    }
    status, details := GetRevocationStatusForCert(data, cert.value, issuer.value, r);
    var authentic := VerifyOCSPResponseSignature(response.value, data, issuer.value, r);
    if !authentic {
      status := UNKNOWN;
    } else if status != UNKNOWN {
      StatusHasAnswer(response.value.data.value.responses, cert.value, issuer.value, r);
      AuthenticMeans(response.value, data.responderId, issuer.value, r);
    }
  }

  /** The status the check returns. */
  ghost function CheckedStatus(raw: Bytes, response: Option<Response>, cert: Option<Certificate>,
                               issuer: Option<Certificate>, r: Routines): RevocationStatus {
    if Usable(raw, response, cert, issuer)
       && Authentic(response.value, response.value.data.value.responderId, issuer.value, r)
    then Outcome(Entries(response.value.data.value.responses, cert.value, issuer.value, r)).0
    else UNKNOWN
  }

  /** A status other than UNKNOWN is backed by a usable, authentic response, all of whose entries can
      be used, and by a matching, current entry that says so; a GOOD one by every such entry. */
  lemma OnlyBackedStatuses(raw: Bytes, response: Option<Response>, cert: Option<Certificate>,
                           issuer: Option<Certificate>, r: Routines)
    ensures CheckedStatus(raw, response, cert, issuer, r) != UNKNOWN <==>
      && Usable(raw, response, cert, issuer)
      && Authentic(response.value, response.value.data.value.responderId, issuer.value, r)
      && Decided(Entries(response.value.data.value.responses, cert.value, issuer.value, r))
    ensures CheckedStatus(raw, response, cert, issuer, r) != UNKNOWN ==>
      Backs(CheckedStatus(raw, response, cert, issuer, r),
            Entries(response.value.data.value.responses, cert.value, issuer.value, r))
  {
    if Usable(raw, response, cert, issuer) {
      DecidedOutcome(Entries(response.value.data.value.responses, cert.value, issuer.value, r));
    }
  }

  /** No entry is bad, and the strictest of the matching, current ones is not UNKNOWN. */
  predicate Decided(es: seq<Entry>) {
    && (forall i :: 0 <= i < |es| ==> !es[i].Bad?)
    && (Current(REVOKED) in es || (Current(GOOD) in es && Current(UNKNOWN) !in es))
  }

  /** Some matching, current entry carries the status; if that is GOOD, they all do. */
  predicate Backs(status: RevocationStatus, es: seq<Entry>) {
    && Outcome(es).1 == PROVIDED
    && Current(status) in es
    && (status == GOOD ==> forall i :: 0 <= i < |es| && es[i].Current? ==> es[i] == Current(GOOD))
  }

  lemma DecidedOutcome(es: seq<Entry>)
    ensures Outcome(es).0 != UNKNOWN <==> Decided(es)
    ensures Outcome(es).0 != UNKNOWN ==> Backs(Outcome(es).0, es)
  {
    if forall i :: 0 <= i < |es| ==> !es[i].Bad? {
      NoBad(es);
      assert forall i :: 0 <= i < |es| ==> es[i] in es;
    }
  }

  // ----- what the statuses say, in terms of the response alone

  /** An entry counts as current with a status exactly when it is framed, has no critical extension but
      the one for signed certificate timestamps, names the certificate by issuer name, issuer key and
      serial number under a supported hash, carries that status, and is in date. */
  lemma CurrentMeans(s: SingleResponse, cert: Certificate, issuer: Certificate, r: Routines, status: RevocationStatus)
    ensures EntryOf(s, cert, issuer, r) == Current(status) <==>
      && s.SingleResponse? && s.status == status && !s.extensions.Unreadable?
      && (s.extensions.Present? ==>
          forall oid :: oid in s.extensions.extensions && s.extensions.extensions[oid].critical ==>
            oid == CT_SCT_OID)
      && s.certId.Some? && s.certId.value.serialNumber == cert.serialNumber
      && s.certId.value.algorithm in {Sha1, Sha256, Sha384, Sha512}
      && s.certId.value.issuerNameHash == r.hash(s.certId.value.algorithm, cert.issuerTlv)
      && issuer.publicKey.Some?
          && s.certId.value.issuerKeyHash == r.hash(s.certId.value.algorithm, issuer.publicKey.value)
      && r.dateValid(s.thisUpdate, s.nextUpdate)
  {
    if s.SingleResponse? && s.certId.Some? { CertIdMeans(s.certId.value, cert, issuer, r); }
    if s.SingleResponse? { CriticalMeans(s.extensions); }
  }

  lemma CertIdMeans(id: CertId, cert: Certificate, issuer: Certificate, r: Routines)
    ensures CertIdMatches(id, cert, issuer, r) <==>
      && id.algorithm in {Sha1, Sha256, Sha384, Sha512}
      && r.hash(id.algorithm, cert.issuerTlv) == id.issuerNameHash
      && issuer.publicKey.Some? && r.hash(id.algorithm, issuer.publicKey.value) == id.issuerKeyHash
      && id.serialNumber == cert.serialNumber
  {
    match id.algorithm
    case Md2 | Md4 | Md5 =>
    case _ =>
  }

  lemma CriticalMeans(f: ExtensionField)
    ensures Refusal(f, {CT_SCT_OID}).None? <==>
      && !f.Unreadable?
      && (f.Present? ==> forall oid :: oid in f.extensions && f.extensions[oid].critical ==> oid == CT_SCT_OID)
  {}

  /** An entry is bad exactly when it or its CertID is not framed, its extensions cannot be read, or one
      of them is critical and not the one for signed certificate timestamps. */
  lemma BadMeans(s: SingleResponse, cert: Certificate, issuer: Certificate, r: Routines)
    ensures EntryOf(s, cert, issuer, r).Bad? <==>
      || s.Malformed? || s.certId.None? || s.extensions.Unreadable?
      || (s.extensions.Present? &&
          exists oid :: oid in s.extensions.extensions && s.extensions.extensions[oid].critical && oid != CT_SCT_OID)
  {
    if s.SingleResponse? { CriticalMeans(s.extensions); }
  }

  /** The constants, in numbers: the extension of RFC 6962, section 3.3, and the key purpose of RFC 6960,
      section 4.2.2.2. */
  lemma OcspOids()
    ensures CT_SCT_OID == Encode([1, 3] + ([6, 1, 4, 1] + ([11129] + [2, 4, 5])))
    ensures OCSP_SIGNING_OID == Encode([1, 3] + [6, 1, 5, 5, 7, 3, 9])
  {
    EncodeWithWide(1, 3, [6, 1, 4, 1], 11129, [2, 4, 5]);
    EncodeSmall(1, 3, [6, 1, 5, 5, 7, 3, 9]);
  }

  /** A response is authentic exactly when the certificate of the issuer, or one attached to the response
      that the issuer has signed and that lists the OCSP signing purpose, is the one the responder ID
      names, and its key has signed the response data. */
  lemma AuthenticMeans(response: Response, id: ResponderId, issuer: Certificate, r: Routines)
    ensures Authentic(response, id, issuer, r) <==> exists signer: Certificate ::
      && (signer == issuer || exists k ::
            && 0 <= k < |response.certs| && r.parseCertificate(response.certs[k]) == Some(signer)
            && signer.signatureAlgorithm.Some?
            && r.signed(signer.signatureAlgorithm.value, signer.tbs, signer.signature, issuer.spki)
            && signer.extendedKeyUsage.Some?
            && OCSP_SIGNING_OID in signer.extendedKeyUsage.value)
      && (match id
          case ByName(name) => name.Some? && signer.subjectName.Some?
              && r.nameMatch(name.value, signer.subjectName.value)
          case ByKeyHash(keyHash) => signer.publicKey.Some? && r.hash(Sha1, signer.publicKey.value) == keyHash)
      && r.signed(response.algorithm, response.dataTlv, response.signature, signer.spki)
  {
    if Authentic(response, id, issuer, r) && !(ResponderMatches(id, issuer, r) && SignsResponse(response, issuer, r)) {
      var k :| 0 <= k < |response.certs| && Delegate(response, k, id, issuer, r);
      var signer := r.parseCertificate(response.certs[k]).value;
      assert r.signed(response.algorithm, response.dataTlv, response.signature, signer.spki);
    }
    forall k | 0 <= k < |response.certs| && !Delegate(response, k, id, issuer, r)
      ensures r.parseCertificate(response.certs[k]).Some? ==>
        var signer := r.parseCertificate(response.certs[k]).value;
        !(ResponderMatches(id, signer, r) && AuthorizedResponder(signer, issuer, r)
            && SignsResponse(response, signer, r))
    {}
  }

  /** The response may be used exactly when it is there, successful and readable, has no critical
      extension of its own, both certificates parse, and it was produced within the certificate's
      validity, both ends included. */
  lemma UsableMeans(raw: Bytes, response: Option<Response>, cert: Option<Certificate>, issuer: Option<Certificate>)
    ensures Usable(raw, response, cert, issuer) <==>
      && raw != [] && response.Some? && response.value.successful && response.value.data.Some?
      && !response.value.data.value.extensions.Unreadable?
      && (response.value.data.value.extensions.Present? ==>
            forall oid :: oid in response.value.data.value.extensions.extensions ==>
              !response.value.data.value.extensions.extensions[oid].critical)
      && cert.Some? && issuer.Some?
      && !Before(response.value.data.value.producedAt, cert.value.notBefore)
      && !Before(cert.value.notAfter, response.value.data.value.producedAt)
  {}

  /** A legible single response about the certificate. */
  predicate Concerns(s: SingleResponse, cert: Certificate, issuer: Certificate, r: Routines) {
    && Legible(s)
    && s.certId.value.serialNumber == cert.serialNumber
    && s.certId.value.algorithm in {Sha1, Sha256, Sha384, Sha512}
    && s.certId.value.issuerNameHash == r.hash(s.certId.value.algorithm, cert.issuerTlv)
    && issuer.publicKey.Some?
        && s.certId.value.issuerKeyHash == r.hash(s.certId.value.algorithm, issuer.publicKey.value)
  }

  /** One that is in date as well. */
  predicate Answers(s: SingleResponse, cert: Certificate, issuer: Certificate, r: Routines) {
    Concerns(s, cert, issuer, r) && r.dateValid(s.thisUpdate, s.nextUpdate)
  }

  predicate Legible(s: SingleResponse) {
    && s.SingleResponse? && s.certId.Some? && !s.extensions.Unreadable?
    && (s.extensions.Present? ==>
        forall oid :: oid in s.extensions.extensions && s.extensions.extensions[oid].critical ==> oid == CT_SCT_OID)
  }

  /** The status of a usable, authentic response: REVOKED exactly when all of its entries are legible and
      one of them answers so, GOOD exactly when all are legible, one answers so, and none otherwise. */
  lemma StatusMeans(raw: Bytes, response: Response, cert: Certificate, issuer: Certificate, r: Routines)
    requires Usable(raw, Some(response), Some(cert), Some(issuer))
    requires Authentic(response, response.data.value.responderId, issuer, r)
    ensures var entries := response.data.value.responses;
      CheckedStatus(raw, Some(response), Some(cert), Some(issuer), r) == REVOKED <==>
        && (forall i :: 0 <= i < |entries| ==> Legible(entries[i]))
        && exists i :: 0 <= i < |entries| && Answers(entries[i], cert, issuer, r) && entries[i].status == REVOKED
    ensures var entries := response.data.value.responses;
      CheckedStatus(raw, Some(response), Some(cert), Some(issuer), r) == GOOD <==>
        && (forall i :: 0 <= i < |entries| ==> Legible(entries[i]))
        && (exists i :: 0 <= i < |entries| && Answers(entries[i], cert, issuer, r))
        && forall i :: 0 <= i < |entries| && Answers(entries[i], cert, issuer, r) ==> entries[i].status == GOOD
  {
    var entries := response.data.value.responses;
    var es := Entries(entries, cert, issuer, r);
    DecidedOutcome(es);
    forall i | 0 <= i < |es|
      ensures es[i].Bad? <==> !Legible(entries[i])
      ensures es[i].Current? <==> Answers(entries[i], cert, issuer, r)
      ensures es[i].Current? ==> es[i].status == entries[i].status
      ensures es[i] in es
    {
      EntryMeans(entries[i], cert, issuer, r);
    }
    AllOf(es);
  }

  lemma EntryMeans(s: SingleResponse, cert: Certificate, issuer: Certificate, r: Routines)
    ensures EntryOf(s, cert, issuer, r).Bad? <==> !Legible(s)
    ensures EntryOf(s, cert, issuer, r).Current? <==> Answers(s, cert, issuer, r)
    ensures EntryOf(s, cert, issuer, r).OutOfDate? <==> Concerns(s, cert, issuer, r) && !Answers(s, cert, issuer, r)
    ensures EntryOf(s, cert, issuer, r).Current? ==> EntryOf(s, cert, issuer, r).status == s.status
  {
    BadMeans(s, cert, issuer, r);
    if s.SingleResponse? {
      CurrentMeans(s, cert, issuer, r, s.status);
      if s.certId.Some? { CertIdMeans(s.certId.value, cert, issuer, r); }
    }
  }

  /** The details for entries that are all legible: an answer, or an entry about the certificate that is
      out of date, or none about it. */
  lemma DetailsMean(entries: seq<SingleResponse>, cert: Certificate, issuer: Certificate, r: Routines)
    requires forall i :: 0 <= i < |entries| ==> Legible(entries[i])
    ensures Outcome(Entries(entries, cert, issuer, r)).1 ==
      if exists i :: 0 <= i < |entries| && Answers(entries[i], cert, issuer, r) then PROVIDED
      else if exists i :: 0 <= i < |entries| && Concerns(entries[i], cert, issuer, r) then INVALID_DATE
      else NO_MATCHING_RESPONSE
  {
    var es := Entries(entries, cert, issuer, r);
    forall i | 0 <= i < |es|
      ensures !es[i].Bad? && es[i] in es
      ensures es[i].Current? <==> Answers(entries[i], cert, issuer, r)
      ensures es[i].OutOfDate? <==> Concerns(entries[i], cert, issuer, r) && !Answers(entries[i], cert, issuer, r)
    {
      EntryMeans(entries[i], cert, issuer, r);
    }
    NoBad(es);
    AllOf(es);
  }

  lemma AllOf(es: seq<Entry>)
    ensures forall status :: Current(status) in es <==>
      exists i :: 0 <= i < |es| && es[i].Current? && es[i].status == status
  {
    forall i | 0 <= i < |es| && es[i].Current?
      ensures es[i] == Current(es[i].status)
    {}
  }

  /** Which single responses decide. */
  lemma StatusHasAnswer(responses: seq<SingleResponse>, cert: Certificate, issuer: Certificate, r: Routines)
    requires Outcome(Entries(responses, cert, issuer, r)).0 != UNKNOWN
    ensures issuer.publicKey.Some?
    ensures exists i :: 0 <= i < |responses| &&
             var s := responses[i];
             && s.SingleResponse? && s.status == Outcome(Entries(responses, cert, issuer, r)).0 && s.certId.Some?
             && s.certId.value.serialNumber == cert.serialNumber
             && s.certId.value.algorithm in {Sha1, Sha256, Sha384, Sha512}
             && s.certId.value.issuerNameHash == r.hash(s.certId.value.algorithm, cert.issuerTlv)
             && s.certId.value.issuerKeyHash == r.hash(s.certId.value.algorithm, issuer.publicKey.value)
             && r.dateValid(s.thisUpdate, s.nextUpdate)
  {
    var es := Entries(responses, cert, issuer, r);
    DecidedOutcome(es);
    var i :| 0 <= i < |es| && es[i] == Current(Outcome(es).0);
    CurrentMeans(responses[i], cert, issuer, r, Outcome(es).0);
    assert responses[i].SingleResponse?;
  }

  /** A current entry in the list comes from a single response with that status, the certificate's
      identifier and a valid date. */
  lemma CurrentEntryMeans(responses: seq<SingleResponse>, cert: Certificate, issuer: Certificate, r: Routines,
                          status: RevocationStatus)
    ensures Current(status) in Entries(responses, cert, issuer, r) <==>
      exists i :: 0 <= i < |responses| && var s := responses[i];
        s.SingleResponse? && s.status == status && Refusal(s.extensions, {CT_SCT_OID}).None?
        && s.certId.Some? && CertIdMatches(s.certId.value, cert, issuer, r) && r.dateValid(s.thisUpdate, s.nextUpdate)
  {
    var es := Entries(responses, cert, issuer, r);
    if Current(status) in es {
      var i :| 0 <= i < |es| && es[i] == Current(status);
      assert EntryOf(responses[i], cert, issuer, r) == Current(status);
    }
    forall i | 0 <= i < |responses| && EntryOf(responses[i], cert, issuer, r) == Current(status)
      ensures Current(status) in es
    {
      assert es[i] == Current(status);
    }
  }
}
