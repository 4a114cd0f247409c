/** The certificate policies extension (`certificate_policies.cc`; RFC 5280, section 4.2.1.4): qualifiers,
    and the refusal of repeated policy OIDs by sorting and looking at neighbours. */
module CertificatePolicies {
  import opened Input
  import opened ObjectIdentifiers
  import opened Options
  import opened Sorting

  const ANY_POLICY_OID: Bytes := [0x55, 0x1D, 0x20, 0x00]
  const CPS_POINTER_ID: Bytes := [0x2b, 0x06, 0x01, 0x05, 0x05, 0x07, 0x02, 0x01]
  const USER_NOTICE_ID: Bytes := [0x2b, 0x06, 0x01, 0x05, 0x05, 0x07, 0x02, 0x02]

  /** A framed PolicyQualifierInfo; the qualifier is absent when nothing follows the identifier. */
  datatype Qualifier = MalformedQualifier | Qualifier(id: Bytes, value: Option<Bytes>, trailing: bool)

  datatype Qualifiers = NoQualifiers | UnframedQualifiers | Qualifiers(list: seq<Qualifier>, trailing: bool)

  datatype Policy = MalformedPolicy | Policy(oid: Bytes, qualifiers: Qualifiers)

  datatype Policies = Unframed | Policies(list: seq<Policy>, trailing: bool)

  // ----- which extensions are well formed

  predicate QualifierFits(q: Qualifier, restrict: bool) {
    && q.Qualifier? && q.value.Some? && !q.trailing
    && (restrict ==> q.id == CPS_POINTER_ID || q.id == USER_NOTICE_ID)
  }

  predicate QualifiersFit(list: seq<Qualifier>, restrict: bool) {
    list != [] && forall i :: 0 <= i < |list| ==> QualifierFits(list[i], restrict)
  }

  predicate PolicyFits(p: Policy, failOnUnknown: bool) {
    && p.Policy?
    && (p.qualifiers.NoQualifiers?
        || (p.qualifiers.Qualifiers? && !p.qualifiers.trailing
            && QualifiersFit(p.qualifiers.list, failOnUnknown || p.oid == ANY_POLICY_OID)))
  }

  predicate WellFormed(policies: Policies, failOnUnknown: bool) {
    && policies.Policies? && !policies.trailing && policies.list != []
    && forall i :: 0 <= i < |policies.list| ==> PolicyFits(policies.list[i], failOnUnknown)
  }

  method ParsePolicyQualifiers(restrict: bool, list: seq<Qualifier>) returns (ok: bool)
    ensures ok <==> QualifiersFit(list, restrict)
  {
    if list == [] {
      return false;
    }
    for i := 0 to |list|
      invariant forall j :: 0 <= j < i ==> QualifierFits(list[j], restrict)
    {
      var q := list[i];
      if q.MalformedQualifier? {
        return false;
      }
      if restrict && q.id != CPS_POINTER_ID && q.id != USER_NOTICE_ID {
        return false;
      }
      if q.value.None? {
        return false;
      }
      if q.trailing {
        return false;
      }
    }
    return true;
  }

  // ----- repeated OIDs

  ghost predicate Distinct(s: seq<Bytes>) {
    forall i, j :: 0 <= i < j < |s| ==> s[i] != s[j]
  }

  ghost predicate Increasing(s: seq<Bytes>) {
    forall i, j :: 0 <= i < j < |s| ==> Less(s[i], s[j])
  }

  /** In a sorted list without equal neighbours, every element is below the ones after it. */
  lemma NeighboursSuffice(s: seq<Bytes>)
    requires Sorted(s) && forall i :: 0 <= i && i + 1 < |s| ==> s[i] != s[i + 1]
    ensures Increasing(s)
  {
    forall i, j | 0 <= i < j < |s| ensures Less(s[i], s[j]) {
      Between(s, i, j);
    }
  }

  lemma Between(s: seq<Bytes>, i: nat, j: nat)
    requires Sorted(s) && i < j < |s| && s[i] != s[i + 1]
    ensures Less(s[i], s[j])
  {
    LessTotal(s[i], s[i + 1]);
    LessTotal(s[i + 1], s[j]);
    if Less(s[i + 1], s[j]) { LessTransitive(s[i], s[i + 1], s[j]); }
  }

  lemma IncreasingIsDistinct(s: seq<Bytes>)
    requires Increasing(s)
    ensures Distinct(s)
  {
    forall i, j | 0 <= i < j < |s| ensures s[i] != s[j] {
      LessTotal(s[i], s[j]);
    }
  }

  /** How often an element occurs decides whether a list has repetitions, so sorting keeps that. */
  lemma {:induction false} DistinctByCount(s: seq<Bytes>)
    ensures Distinct(s) <==> forall v :: multiset(s)[v] <= 1
  {
    if s != [] {
      var t := s[1..];
      assert s == [s[0]] + t;
      DistinctByCount(t);
      if Distinct(s) {
        assert s[0] !in multiset(t);
        forall i, j | 0 <= i < j < |t| ensures t[i] != t[j] {
          assert s[i + 1] != s[j + 1];
        }
      } else {
        var i, j :| 0 <= i < j < |s| && s[i] == s[j];
        CountAt(s, i, j);
      }
    }
  }

  lemma CountAt(s: seq<Bytes>, i: nat, j: nat)
    requires i < j < |s| && s[i] == s[j]
    ensures multiset(s)[s[i]] >= 2
  {
    assert s == s[..j] + s[j..];
    assert s[i] in s[..j] && s[j] in s[j..];
  }

  /** The oid occurs more than once, and no smaller one does. */
  ghost predicate LeastRepeated(v: Bytes, s: seq<Bytes>) {
    && multiset(s)[v] >= 2
    && forall w :: Less(w, v) ==> multiset(s)[w] <= 1
  }

  /** The first equal neighbours in a sorted list are the least repeated element. */
  lemma FirstNeighbours(s: seq<Bytes>, k: nat)
    requires Sorted(s) && k + 1 < |s| && s[k] == s[k + 1]
    requires forall i :: 0 <= i < k && i + 1 < |s| ==> s[i] != s[i + 1]
    ensures LeastRepeated(s[k], s)
  {
    CountAt(s, k, k + 1);
    forall w | Less(w, s[k]) ensures multiset(s)[w] <= 1 {
      assert s == s[..k] + s[k..];
      NeighboursSuffice(s[..k]);
      IncreasingIsDistinct(s[..k]);
      DistinctByCount(s[..k]);
      forall j | k <= j < |s| ensures s[j] != w {
        LessTotal(w, w);
      }
      assert w !in s[k..];
    }
  }

  // ----- the parser

  datatype Outcome = Accepted(oids: seq<Bytes>) | Refused | Duplicate(oid: Bytes)

  function Oids(list: seq<Policy>): (s: seq<Bytes>)
    requires forall i :: 0 <= i < |list| ==> list[i].Policy?
    ensures |s| == |list| && forall i :: 0 <= i < |s| ==> s[i] == list[i].oid
  {
    seq(|list|, i requires 0 <= i < |list| => list[i].oid)
  }

  method ParseCertificatePoliciesExtension(policies: Policies, failOnUnknown: bool) returns (r: Outcome)
    ensures r.Refused? <==> !WellFormed(policies, failOnUnknown)
    ensures r.Accepted? <==> WellFormed(policies, failOnUnknown) && Distinct(Oids(policies.list))
    ensures r.Accepted? ==> Increasing(r.oids) && multiset(r.oids) == multiset(Oids(policies.list))
    ensures r.Duplicate? ==> LeastRepeated(r.oid, Oids(policies.list))
  {
    if policies.Unframed? {
      return Refused;
    }
    if policies.trailing {
      return Refused;
    }
    var list := policies.list;
    if list == [] {
      return Refused;
    }
    var oids: seq<Bytes> := [];
    for i := 0 to |list|
      invariant forall j :: 0 <= j < i ==> PolicyFits(list[j], failOnUnknown)
      invariant oids == Oids(list[..i])
    {
      var p := list[i];
      if p.MalformedPolicy? {
        return Refused;
      }
      oids := oids + [p.oid];
      if p.qualifiers.NoQualifiers? {
        continue;
      }
      if p.qualifiers.UnframedQualifiers? {
        return Refused;
      }
      if p.qualifiers.trailing {
        return Refused;
      }
      var ok := ParsePolicyQualifiers(failOnUnknown || p.oid == ANY_POLICY_OID, p.qualifiers.list);
      if !ok {
        return Refused;
      }
    }
    assert list[..|list|] == list;
    var repeated;
    oids, repeated := SortAndCompare(oids);
    return if repeated.Some? then Duplicate(repeated.value) else Accepted(oids);
  }

  /** Sort, then look for the first equal neighbours. */
  method SortAndCompare(oids: seq<Bytes>) returns (sorted: seq<Bytes>, repeated: Option<Bytes>)
    ensures multiset(sorted) == multiset(oids)
    ensures repeated.None? <==> Distinct(oids)
    ensures repeated.None? ==> Increasing(sorted)
    ensures repeated.Some? ==> LeastRepeated(repeated.value, oids)
  {
    sorted := Sort(oids);
    SortIsSorted(oids);
    var k := 0;
    while k + 1 < |sorted|
      invariant k <= |sorted|
      invariant forall i :: 0 <= i < k && i + 1 < |sorted| ==> sorted[i] != sorted[i + 1]
    {
      if sorted[k] == sorted[k + 1] {
        FirstNeighbours(sorted, k);
        RepeatedIsNotDistinct(sorted[k], oids);
        return sorted, Some(sorted[k]);
      }
      k := k + 1;
    }
    NeighboursSuffice(sorted);
    SameDistinctness(sorted, oids);
    return sorted, None;
  }

  lemma RepeatedIsNotDistinct(v: Bytes, s: seq<Bytes>)
    requires multiset(s)[v] >= 2
    ensures !Distinct(s)
  {
    DistinctByCount(s);
  }

  lemma SameDistinctness(sorted: seq<Bytes>, s: seq<Bytes>)
    requires Increasing(sorted) && multiset(sorted) == multiset(s)
    ensures Distinct(s)
  {
    IncreasingIsDistinct(sorted);
    DistinctByCount(sorted);
    DistinctByCount(s);
  }

  // ----- what is well formed, in the terms of RFC 5280

  lemma PolicyOids()
    ensures ANY_POLICY_OID == Encode([2, 5] + [29, 32, 0])
    ensures CPS_POINTER_ID == Encode([1, 3] + [6, 1, 5, 5, 7, 2, 1])
    ensures USER_NOTICE_ID == Encode([1, 3] + [6, 1, 5, 5, 7, 2, 2])
  {
    EncodeSmall(2, 5, [29, 32, 0]);
    QualifierOid(1);
    QualifierOid(2);
  }

  lemma QualifierOid(n: nat)
    requires n < 128
    ensures Encode([1, 3] + [6, 1, 5, 5, 7, 2, n]) == [0x2b, 6, 1, 5, 5, 7, 2, n]
  {
    EncodeSmall(1, 3, [6, 1, 5, 5, 7, 2, n]);
  }

  /** An extension is well formed exactly when it is framed, holds a policy and nothing behind, and every
      policy is framed and has no qualifiers, or a list of at least one and nothing behind; each qualifier
      has an identifier and a value and nothing behind; and its identifier is CPS or user notice if the
      policy is anyPolicy, or if the caller asks for it. */
  lemma WellFormedMeans(policies: Policies, failOnUnknown: bool)
    ensures WellFormed(policies, failOnUnknown) <==>
      && policies.Policies? && |policies.list| > 0 && !policies.trailing
      && (forall i :: 0 <= i < |policies.list| ==>
          policies.list[i].Policy? && !policies.list[i].qualifiers.UnframedQualifiers?)
      && forall i :: 0 <= i < |policies.list| && policies.list[i].qualifiers.Qualifiers? ==>
           && |policies.list[i].qualifiers.list| > 0 && !policies.list[i].qualifiers.trailing
           && forall j :: 0 <= j < |policies.list[i].qualifiers.list| ==>
                var q := policies.list[i].qualifiers.list[j];
                && q.Qualifier? && q.value.Some? && !q.trailing
                && (failOnUnknown || policies.list[i].oid == ANY_POLICY_OID ==>
                    q.id in {CPS_POINTER_ID, USER_NOTICE_ID})
  {
    if policies.Policies? {
      forall i | 0 <= i < |policies.list|
        ensures PolicyFits(policies.list[i], failOnUnknown) <==>
          && policies.list[i].Policy? && !policies.list[i].qualifiers.UnframedQualifiers?
          && (policies.list[i].qualifiers.Qualifiers? ==>
              && |policies.list[i].qualifiers.list| > 0 && !policies.list[i].qualifiers.trailing
              && forall j :: 0 <= j < |policies.list[i].qualifiers.list| ==>
                   var q := policies.list[i].qualifiers.list[j];
                   && q.Qualifier? && q.value.Some? && !q.trailing
                   && (failOnUnknown || policies.list[i].oid == ANY_POLICY_OID ==>
                       q.id in {CPS_POINTER_ID, USER_NOTICE_ID}))
      {}
    }
  }
}
