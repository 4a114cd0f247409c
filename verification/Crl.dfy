/** Revocation status from a CRL (`crl.cc`; RFC 5280, sections 5.3 and 6.3.3): the search through the
    revoked certificates, the match of distribution points, and the search for the signer. */
module Crl {
  import opened Certificates
  import opened Input
  import opened ObjectIdentifiers
  import opened Options
  import opened Sorting
  import opened TimeValues

  datatype CrlVersion = Crl1 | Crl2

  /** What follows serial number and date in an entry: nothing, something that is no extension list, or
      extensions and perhaps more. */
  datatype Rest = Nothing | Unparsable | Extended(extensions: Extensions, more: bool)

  datatype RevokedEntry = Malformed | RevokedEntry(serial: Bytes, rest: Rest)

  datatype RevokedList = Unframed | RevokedList(entries: seq<RevokedEntry>, trailing: bool)

  // ----- is the certificate listed?

  /** An entry that forbids using the CRL for any certificate. */
  predicate Poisons(e: RevokedEntry, version: CrlVersion) {
    || e.Malformed?
    || (e.rest != Nothing && version != Crl2)
    || e.rest.Unparsable?
    || (e.rest.Extended? && (e.rest.more || AnyCritical(e.rest.extensions, {})))
  }

  predicate Lists(e: RevokedEntry, serial: Bytes) {
    e.RevokedEntry? && e.serial == serial
  }

  /** Some entry of the list, if there is one, bears the serial number. */
  predicate ListsSerial(list: Option<RevokedList>, serial: Bytes) {
    && list.Some? && list.value.RevokedList?
    && exists i :: 0 <= i < |list.value.entries| && Lists(list.value.entries[i], serial)
  }

  predicate Readable(list: RevokedList, version: CrlVersion) {
    && list.RevokedList? && list.entries != [] && !list.trailing
    && forall i :: 0 <= i < |list.entries| ==> !Poisons(list.entries[i], version)
  }

  /** GOOD when there is no list; otherwise the list must be wholly readable to say anything. */
  function ListedStatus(serial: Bytes, version: CrlVersion, list: Option<RevokedList>): RevocationStatus {
    if list.None? then GOOD
    else if !Readable(list.value, version) then UNKNOWN
    else if ListsSerial(list, serial) then REVOKED
    else GOOD
  }

  method GetCRLStatusForCert(serial: Bytes, version: CrlVersion, list: Option<RevokedList>)
      returns (status: RevocationStatus)
    ensures status == ListedStatus(serial, version, list)
  {
    if list.None? {
      return GOOD;
    }
    if list.value.Unframed? {
      return UNKNOWN;
    }
    var entries := list.value.entries;
    if entries == [] {
      return UNKNOWN;
    }
    if list.value.trailing {
      return UNKNOWN;
    }
    var found := false;
    for i := 0 to |entries|
      invariant forall j :: 0 <= j < i ==> !Poisons(entries[j], version)
      invariant found <==> exists j :: 0 <= j < i && Lists(entries[j], serial)
    {
      var e := entries[i];
      if e.Malformed? {
        return UNKNOWN;
      }
      if e.rest != Nothing {
        if version != Crl2 {
          return UNKNOWN;
        }
        if e.rest.Unparsable? {
          return UNKNOWN;
        }
        if AnyCritical(e.rest.extensions, {}) {
          return UNKNOWN;
        }
        if e.rest.more {
          return UNKNOWN;
        }
      }
      if e.serial == serial {
        assert Lists(entries[i], serial);
        found := true;
      }
    }
    return if found then REVOKED else GOOD;
  }

  /** The order of the entries does not matter. */
  lemma EntryOrderDoesNotMatter(serial: Bytes, version: CrlVersion, a: seq<RevokedEntry>, b: seq<RevokedEntry>,
                                trailing: bool)
    requires multiset(a) == multiset(b)
    ensures ListedStatus(serial, version, Some(RevokedList(a, trailing))) ==
      ListedStatus(serial, version, Some(RevokedList(b, trailing)))
  {
    SomeEntryMoves(a, b, (e: RevokedEntry) => Lists(e, serial));
    SomeEntryMoves(a, b, (e: RevokedEntry) => Poisons(e, version));
    HasReadable(a, serial, version, trailing);
    HasReadable(b, serial, version, trailing);
    assert |a| == |multiset(a)| && |b| == |multiset(b)|;
  }

  ghost predicate Has(s: seq<RevokedEntry>, p: RevokedEntry -> bool) {
    exists i :: 0 <= i < |s| && p(s[i])
  }

  lemma HasReadable(s: seq<RevokedEntry>, serial: Bytes, version: CrlVersion, trailing: bool)
    ensures Readable(RevokedList(s, trailing), version) <==> |s| > 0 && !trailing && !Has(s, e => Poisons(e, version))
    ensures (exists i :: 0 <= i < |s| && Lists(s[i], serial)) <==> Has(s, e => Lists(e, serial))
  {}

  lemma SomeEntryMoves(a: seq<RevokedEntry>, b: seq<RevokedEntry>, p: RevokedEntry -> bool)
    requires multiset(a) == multiset(b)
    ensures Has(a, p) <==> Has(b, p)
  {
    forall i | 0 <= i < |a| && p(a[i]) ensures Has(b, p) {
      assert a[i] in multiset(b);
    }
    forall i | 0 <= i < |b| && p(b[i]) ensures Has(a, p) {
      assert b[i] in multiset(a);
    }
  }

  // ----- distribution point names

  /** Both lists are sorted, then merged. */
  method ContainsExactMatchingName(a: seq<Bytes>, b: seq<Bytes>) returns (found: bool)
    ensures found <==> exists v :: v in a && v in b
  {
    SortIsSorted(a);
    SortIsSorted(b);
    var inCommon := SetIntersection(Sort(a), Sort(b));
    forall v ensures v in inCommon <==> v in a && v in b {
      assert v in inCommon <==> v in multiset(inCommon);
      InSort(a, v);
      InSort(b, v);
      assert (v in Sort(a) <==> v in multiset(Sort(a))) && (v in Sort(b) <==> v in multiset(Sort(b)));
    }
    found := inCommon != [];
    if found {
      assert inCommon[0] in inCommon;
    }
  }

  /** The merge of two sorted lists: in order, what occurs in both, as often as it occurs in both. */
  method SetIntersection(x: seq<Bytes>, y: seq<Bytes>) returns (inCommon: seq<Bytes>)
    requires Sorted(x) && Sorted(y)
    ensures Sorted(inCommon) && multiset(inCommon) == multiset(x) * multiset(y)
  {
    inCommon := [];
    ghost var all := multiset(x) * multiset(y);
    var i, j := 0, 0;
    assert x[0..] == x && y[0..] == y;
    while i < |x| && j < |y|
      invariant i <= |x| && j <= |y|
      invariant Sorted(inCommon)
      invariant forall k, l :: 0 <= k < |inCommon| && i <= l < |x| ==> !Less(x[l], inCommon[k])
      invariant Merged(multiset(inCommon), x, i, y, j, all)
      decreases |x| - i + |y| - j
    {
      if Less(x[i], y[j]) {
        SkipFirst(multiset(inCommon), x, i, y, j, all);
        i := i + 1;
      } else if Less(y[j], x[i]) {
        SkipSecond(multiset(inCommon), x, i, y, j, all);
        j := j + 1;
      } else {
        TakeBoth(multiset(inCommon), x, i, y, j, all);
        inCommon := inCommon + [x[i]];
        i, j := i + 1, j + 1;
      }
    }
    assert x[|x|..] == [] && y[|y|..] == [];
  }

  /** What has been found, and what the rests have in common, is what the lists have in common. */
  ghost predicate Merged(found: multiset<Bytes>, x: seq<Bytes>, i: nat, y: seq<Bytes>, j: nat, all: multiset<Bytes>) {
    i <= |x| && j <= |y| && found + multiset(x[i..]) * multiset(y[j..]) == all
  }

  lemma SkipFirst(found: multiset<Bytes>, x: seq<Bytes>, i: nat, y: seq<Bytes>, j: nat, all: multiset<Bytes>)
    requires Merged(found, x, i, y, j, all) && i < |x| && j < |y| && Sorted(y) && Less(x[i], y[j])
    ensures Merged(found, x, i + 1, y, j, all)
  {
    TailOf(x, i);
    TailOf(y, j);
    DropBelow(x[i..], y[j..]);
  }

  lemma SkipSecond(found: multiset<Bytes>, x: seq<Bytes>, i: nat, y: seq<Bytes>, j: nat, all: multiset<Bytes>)
    requires Merged(found, x, i, y, j, all) && i < |x| && j < |y| && Sorted(x) && Less(y[j], x[i])
    ensures Merged(found, x, i, y, j + 1, all)
  {
    TailOf(x, i);
    TailOf(y, j);
    DropBelow(y[j..], x[i..]);
  }

  lemma TakeBoth(found: multiset<Bytes>, x: seq<Bytes>, i: nat, y: seq<Bytes>, j: nat, all: multiset<Bytes>)
    requires Merged(found, x, i, y, j, all) && i < |x| && j < |y| && !Less(x[i], y[j]) && !Less(y[j], x[i])
    ensures Merged(found + multiset{x[i]}, x, i + 1, y, j + 1, all)
  {
    TailOf(x, i);
    TailOf(y, j);
    DropEqual(x[i..], y[j..]);
    Regroup(found, multiset{x[i]}, multiset(x[i + 1..]) * multiset(y[j + 1..]));
  }

  lemma TailOf(s: seq<Bytes>, i: nat)
    requires i < |s|
    ensures s[i..][0] == s[i] && s[i..][1..] == s[i + 1..]
  {}

  lemma Regroup(a: multiset<Bytes>, b: multiset<Bytes>, c: multiset<Bytes>)
    ensures a + (b + c) == (a + b) + c
  {}

  /** The head of one list that is below the head of the other is not shared. */
  lemma DropBelow(x: seq<Bytes>, y: seq<Bytes>)
    requires Sorted(y) && x != [] && y != [] && Less(x[0], y[0])
    ensures multiset(x[1..]) * multiset(y) == multiset(x) * multiset(y)
    ensures multiset(y) * multiset(x[1..]) == multiset(y) * multiset(x)
  {
    BelowTheRest(x[0], y, 0);
    assert x[0] !in multiset(y);
    assert x == [x[0]] + x[1..];
  }

  lemma DropEqual(x: seq<Bytes>, y: seq<Bytes>)
    requires x != [] && y != [] && !Less(x[0], y[0]) && !Less(y[0], x[0])
    ensures x[0] == y[0] && multiset(x) * multiset(y) == multiset{x[0]} + multiset(x[1..]) * multiset(y[1..])
  {
    LessTotal(x[0], y[0]);
    assert x == [x[0]] + x[1..] && y == [y[0]] + y[1..];
  }

  /** What lies below one element of a sorted list is not among the rest. */
  lemma BelowTheRest(v: Bytes, s: seq<Bytes>, from: nat)
    requires Sorted(s) && from < |s| && Less(v, s[from])
    ensures forall k :: from <= k < |s| ==> s[k] != v
  {
    LessTotal(v, v);
  }

  // ----- the whole check

  datatype CertScope = AnyCerts | UserCerts | CaCerts

  datatype IssuingDistributionPoint = IssuingDistributionPoint(names: Option<seq<Bytes>>, scope: CertScope)

  /** `names` are the URIs of the full name, when the point has one. */
  datatype DistributionPoint = DistributionPoint(reasons: Option<Bytes>, crlIssuer: Option<Bytes>,
                                                 names: Option<seq<Bytes>>)

  /** A framed CertificateList; the parts that do not parse are absent. */
  datatype TbsCertList = TbsCertList(
    version: CrlVersion, algorithm: Option<SignatureAlgorithm>, normalizedIssuer: Option<Bytes>,
    thisUpdate: GeneralizedTime, nextUpdate: Option<GeneralizedTime>,
    revoked: Option<RevokedList>, extensions: ExtensionField)

  datatype CertificateList = CertificateList(tbsTlv: Bytes, tbs: Option<TbsCertList>,
                                             algorithm: Option<SignatureAlgorithm>, signature: Bytes)

  const ISSUING_DISTRIBUTION_POINT_OID: Bytes := [0x55, 0x1d, 0x1c]

  /** The certificate is of the kind the CRL covers. */
  predicate InScope(target: Certificate, scope: CertScope) {
    match scope
    case AnyCerts => true
    case UserCerts => target.isCa != Some(true) && target.version == V3
    case CaCerts => target.isCa == Some(true)
  }

  /** An issuing distribution point fits the certificate and the point it was found through. */
  ghost predicate PointFits(idp: Option<IssuingDistributionPoint>, target: Certificate, dp: DistributionPoint) {
    && idp.Some?
    && (idp.value.names.Some? ==> dp.names.Some? && exists v :: v in dp.names.value && v in idp.value.names.value)
    && InScope(target, idp.value.scope)
  }

  ghost predicate ExtensionsAcceptable(f: ExtensionField, target: Certificate, dp: DistributionPoint,
                                       parseIdp: Bytes -> Option<IssuingDistributionPoint>) {
    && !f.Unreadable?
    && (f.Present? ==>
      && (ISSUING_DISTRIBUTION_POINT_OID in f.extensions ==>
          PointFits(parseIdp(f.extensions[ISSUING_DISTRIBUTION_POINT_OID].value), target, dp))
      && !AnyCritical(f.extensions, {ISSUING_DISTRIBUTION_POINT_OID}))
  }

  /** The CRL is readable, current, complete, by the issuer of the certificate, and covers it. */
  ghost predicate Acceptable(crl: Option<CertificateList>, target: Certificate, dp: DistributionPoint, r: Routines,
                             parseIdp: Bytes -> Option<IssuingDistributionPoint>) {
    && dp.reasons.None? && dp.crlIssuer.None?
    && crl.Some? && crl.value.tbs.Some?
    && var tbs := crl.value.tbs.value;
       && crl.value.algorithm.Some? && tbs.algorithm == crl.value.algorithm
       && r.dateValid(tbs.thisUpdate, tbs.nextUpdate)
       && tbs.normalizedIssuer == Some(target.normalizedIssuer)
       && ExtensionsAcceptable(tbs.extensions, target, dp, parseIdp)
  }

  /** A certificate with the CRL's issuer as subject, allowed to sign CRLs, whose key signed this one. */
  predicate Signs(crl: CertificateList, issuer: Certificate, r: Routines) {
    && crl.tbs.Some? && crl.algorithm.Some?
    && crl.tbs.value.normalizedIssuer == Some(issuer.normalizedSubject)
    && (issuer.keyUsage.Some? ==> issuer.keyUsage.value.AssertsBit(KEY_USAGE_BIT_CRL_SIGN))
    && r.signed(crl.algorithm.value, crl.tbsTlv, crl.signature, issuer.spki)
  }

  ghost predicate Signed(crl: CertificateList, chain: seq<Certificate>, target: nat, r: Routines) {
    exists i :: target < i < |chain| && Signs(crl, chain[i], r)
  }

  /** The status: what the list says, if the CRL is acceptable and some later certificate in the chain
      signed it, whichever that is. */
  ghost function CrlStatus(crl: Option<CertificateList>, chain: seq<Certificate>, target: nat, dp: DistributionPoint,
                           r: Routines, parseIdp: Bytes -> Option<IssuingDistributionPoint>): RevocationStatus
    requires target < |chain|
  {
    if Acceptable(crl, chain[target], dp, r, parseIdp) && Signed(crl.value, chain, target, r)
    then ListedStatus(chain[target].serialNumber, crl.value.tbs.value.version, crl.value.tbs.value.revoked)
    else UNKNOWN
  }

  method CheckCRL(crl: Option<CertificateList>, chain: seq<Certificate>, target: nat, dp: DistributionPoint,
                  r: Routines, parseIdp: Bytes -> Option<IssuingDistributionPoint>)
    returns (status: RevocationStatus)
    requires target < |chain|
    ensures status == CrlStatus(crl, chain, target, dp, r, parseIdp)
    ensures status != UNKNOWN <==>
      && Acceptable(crl, chain[target], dp, r, parseIdp) && Signed(crl.value, chain, target, r)
      && (crl.value.tbs.value.revoked.Some? ==>
          Readable(crl.value.tbs.value.revoked.value, crl.value.tbs.value.version))
    ensures status != UNKNOWN ==>
      (status == REVOKED <==> ListsSerial(crl.value.tbs.value.revoked, chain[target].serialNumber))
    // the key of some later certificate, with the issuer of CRL and target as subject, has signed the CRL
    ensures status != UNKNOWN ==>
      && crl.Some? && crl.value.tbs.Some? && crl.value.algorithm.Some?
      && exists i :: target < i < |chain|
           && r.signed(crl.value.algorithm.value, crl.value.tbsTlv, crl.value.signature, chain[i].spki)
           && chain[i].normalizedSubject == chain[target].normalizedIssuer
           && crl.value.tbs.value.normalizedIssuer == Some(chain[i].normalizedSubject)
           && (chain[i].keyUsage.Some? ==> chain[i].keyUsage.value.AssertsBit(6))
    ensures crl.Some? && crl.value.algorithm.Some? && status != UNKNOWN ==>
      !forall i :: target < i < |chain| ==>
           !r.signed(crl.value.algorithm.value, crl.value.tbsTlv, crl.value.signature, chain[i].spki)
    // and the target is of the kind that the CRL covers
    ensures status != UNKNOWN && crl.value.tbs.value.extensions.Present? ==>
      forall ext :: ext == ISSUING_DISTRIBUTION_POINT_OID && ext in crl.value.tbs.value.extensions.extensions ==>
           var idp := parseIdp(crl.value.tbs.value.extensions.extensions[ext].value);
           && idp.Some?
           && (idp.value.scope == UserCerts ==> chain[target].isCa != Some(true) && chain[target].version == V3)
           && (idp.value.scope == CaCerts ==> chain[target].isCa == Some(true))
  {
    if dp.reasons.Some? {
      return UNKNOWN;
    }
    if dp.crlIssuer.Some? {
      return UNKNOWN;
    }
    var cert := chain[target];
    if crl.None? {
      return UNKNOWN;
    }
    if crl.value.tbs.None? {
      return UNKNOWN;
    }
    var tbs := crl.value.tbs.value;
    if crl.value.algorithm.None? {
      return UNKNOWN;
    }
    if tbs.algorithm.None? || crl.value.algorithm != tbs.algorithm {
      return UNKNOWN;
    }
    if !r.dateValid(tbs.thisUpdate, tbs.nextUpdate) {
      return UNKNOWN;
    }
    if tbs.normalizedIssuer.None? {
      return UNKNOWN;
    }
    if tbs.normalizedIssuer.value != cert.normalizedIssuer {
      return UNKNOWN;
    }
    var covered := CheckCrlExtensions(tbs.extensions, cert, dp, parseIdp);
    if !covered {
      return UNKNOWN;
    }
    for i := target + 1 to |chain|
      invariant forall j :: target < j < i ==> !Signs(crl.value, chain[j], r)
    {
      var issuer := chain[i];
      if tbs.normalizedIssuer.value != issuer.normalizedSubject {
        continue;
      }
      if issuer.keyUsage.Some? && !issuer.keyUsage.value.AssertsBit(KEY_USAGE_BIT_CRL_SIGN) {
        continue;
      }
      if !r.signed(crl.value.algorithm.value, crl.value.tbsTlv, crl.value.signature, issuer.spki) {
        continue;
      }
      assert Signs(crl.value, chain[i], r);
      status := GetCRLStatusForCert(cert.serialNumber, tbs.version, tbs.revoked);
      return;
    }
    return UNKNOWN;
  }

  /** A CRL is acceptable for a certificate exactly when the distribution point restricts neither reasons
      nor issuer; the CRL is readable, states one algorithm twice, is current, and has the issuer of the
      certificate; and its extensions are readable, none of them critical but the issuing distribution
      point, which must be readable, share a name with the distribution point if it has names, and cover
      the kind of the certificate. */
  lemma AcceptableMeans(crl: Option<CertificateList>, target: Certificate, dp: DistributionPoint, r: Routines,
                        parseIdp: Bytes -> Option<IssuingDistributionPoint>)
    ensures Acceptable(crl, target, dp, r, parseIdp) <==>
      && dp.reasons == None && dp.crlIssuer == None
      && crl.Some? && crl.value.tbs.Some? && crl.value.algorithm.Some?
      && crl.value.tbs.value.algorithm.Some? && crl.value.tbs.value.algorithm.value == crl.value.algorithm.value
      && r.dateValid(crl.value.tbs.value.thisUpdate, crl.value.tbs.value.nextUpdate)
      && crl.value.tbs.value.normalizedIssuer.Some?
      && crl.value.tbs.value.normalizedIssuer.value == target.normalizedIssuer
      && !crl.value.tbs.value.extensions.Unreadable?
      && (crl.value.tbs.value.extensions.Present? ==>
            forall oid :: oid in crl.value.tbs.value.extensions.extensions ==>
              var ext := crl.value.tbs.value.extensions.extensions[oid];
              if oid != ISSUING_DISTRIBUTION_POINT_OID then !ext.critical
              else
                && parseIdp(ext.value).Some?
                && (match parseIdp(ext.value).value.names
                    case None => true
                    case Some(names) => dp.names.Some? && exists v :: v in names && v in dp.names.value)
                && (match parseIdp(ext.value).value.scope
                    case AnyCerts => true
                    case UserCerts => !(target.isCa.Some? && target.isCa.value) && !target.version.V1?
                        && !target.version.V2?
                    case CaCerts => target.isCa.Some? && target.isCa.value))
  {}

  lemma CrlOids()
    ensures ISSUING_DISTRIBUTION_POINT_OID == Encode([2, 5] + [29, 28])
  {
    EncodeSmall(2, 5, [29, 28]);
  }

  /** The list says GOOD when it is absent. Otherwise it says UNKNOWN when it is not framed, is empty, has
      more behind it, or any entry is not framed, has a rest in a version 1 CRL, or has a rest that is not
      a list of extensions, none of them critical, and nothing more. Otherwise the serial number decides. */
  lemma ListedStatusMeans(serial: Bytes, version: CrlVersion, entries: seq<RevokedEntry>, trailing: bool)
    ensures ListedStatus(serial, version, None) == GOOD && ListedStatus(serial, version, Some(Unframed)) == UNKNOWN
    ensures ListedStatus(serial, version, Some(RevokedList(entries, trailing))) == UNKNOWN <==>
      || |entries| == 0 || trailing
      || exists i :: 0 <= i < |entries| &&
           match entries[i]
           case Malformed => true
           case RevokedEntry(_, Nothing) => false
           case RevokedEntry(_, Unparsable) => true
           case RevokedEntry(_, Extended(extensions, more)) =>
             version == Crl1 || more || exists oid :: oid in extensions && extensions[oid].critical
    ensures ListedStatus(serial, version, Some(RevokedList(entries, trailing))) == REVOKED ==>
      exists i :: 0 <= i < |entries| && entries[i].RevokedEntry? && entries[i].serial == serial
    ensures ListedStatus(serial, version, Some(RevokedList(entries, trailing))) == GOOD ==>
      forall i :: 0 <= i < |entries| ==> entries[i].RevokedEntry? && entries[i].serial != serial
  {
    forall i | 0 <= i < |entries|
      ensures Poisons(entries[i], version) <==>
        match entries[i]
        case Malformed => true
        case RevokedEntry(_, Nothing) => false
        case RevokedEntry(_, Unparsable) => true
        case RevokedEntry(_, Extended(extensions, more)) =>
          version == Crl1 || more || exists oid :: oid in extensions && extensions[oid].critical
    {}
    forall i | 0 <= i < |entries|
      ensures Lists(entries[i], serial) <==> entries[i].RevokedEntry? && entries[i].serial == serial
    {}
  }

  /** The part of the check that looks at the CRL's extensions. */
  method CheckCrlExtensions(f: ExtensionField, cert: Certificate, dp: DistributionPoint,
                            parseIdp: Bytes -> Option<IssuingDistributionPoint>) returns (ok: bool)
    ensures ok <==> ExtensionsAcceptable(f, cert, dp, parseIdp)
  {
    if f.Absent? {
      return true;
    }
    if f.Unreadable? {
      return false;
    }
    var extensions := f.extensions;
    if ISSUING_DISTRIBUTION_POINT_OID in extensions {
      var idp := parseIdp(extensions[ISSUING_DISTRIBUTION_POINT_OID].value);
      extensions := extensions - {ISSUING_DISTRIBUTION_POINT_OID};
      if idp.None? {
        return false;
      }
      if idp.value.names.Some? {
        if dp.names.None? {
          return false;
        }
        var shared := ContainsExactMatchingName(dp.names.value, idp.value.names.value);
        if !shared {
          return false;
        }
      }
      match idp.value.scope {
        case UserCerts =>
          if cert.isCa == Some(true) || cert.version == V1 || cert.version == V2 {
            return false;
          }
        case CaCerts =>
          if cert.isCa.None? || !cert.isCa.value {
            return false;
          }
        case AnyCerts =>
      }
    }
    return !AnyCritical(extensions, {});
  }

  /** Neither which certificate signed nor the order of the later ones matters, nor what precedes the
      target. */
  lemma AnySignerWillDo(crl: Option<CertificateList>, a: seq<Certificate>, i: nat, b: seq<Certificate>, j: nat,
                        dp: DistributionPoint, r: Routines, parseIdp: Bytes -> Option<IssuingDistributionPoint>)
    requires i < |a| && j < |b| && a[i] == b[j]
    requires multiset(a[i + 1..]) == multiset(b[j + 1..])
    ensures CrlStatus(crl, a, i, dp, r, parseIdp) == CrlStatus(crl, b, j, dp, r, parseIdp)
  {
    if crl.Some? {
      SignerMoves(crl.value, a, i, b, j, r);
      SignerMoves(crl.value, b, j, a, i, r);
    }
  }

  lemma SignerMoves(crl: CertificateList, a: seq<Certificate>, i: nat, b: seq<Certificate>, j: nat, r: Routines)
    requires i < |a| && j < |b| && multiset(a[i + 1..]) == multiset(b[j + 1..])
    ensures Signed(crl, a, i, r) ==> Signed(crl, b, j, r)
  {
    if Signed(crl, a, i, r) {
      var k :| i < k < |a| && Signs(crl, a[k], r);
      assert a[k] == a[i + 1..][k - i - 1];
      assert a[k] in multiset(a[i + 1..]);
      var l :| 0 <= l < |b[j + 1..]| && b[j + 1..][l] == a[k];
      assert Signs(crl, b[j + 1 + l], r);
    }
  }
}
