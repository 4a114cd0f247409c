/** Name constraints of a certification authority (`name_constraints.cc`; RFC 5280, section 4.2.1.10):
    parsing the extension, the check of each kind of name, and the check of a whole certificate. */
module NameConstraints {
  import opened AsciiText
  import opened DnsNames
  import opened GeneralNames
  import opened IpUtil
  import opened Octets
  import opened Options
  import opened Quotients

  const SUPPORTED_NAME_TYPES: set<NameType> := {Rfc822Name, DnsName, DirectoryName, IpAddress}
  const MAX_CHECKS := 0x10_0000
  const SIZE_T_RANGE := 0x1_0000_0000_0000_0000

  datatype CertError = NotPermittedByNameConstraints | TooManyNameConstraintChecks | FailedParsingGeneralName

  class CertErrors {
    var ids: seq<CertError>

    constructor ()
      ensures ids == []
    {
      ids := [];
    }

    method AddError(id: CertError)
      modifies this
      ensures ids == old(ids) + [id]
    {
      ids := ids + [id];
    }
  }

  /** Routines whose source is not part of this model: whether an RDN sequence lies within another,
      and the emailAddress attributes of a subject. */
  datatype NameOps = NameOps(inSubtree: (Octets, Octets) -> bool, emailAddresses: Octets -> Option<seq<string>>)

  // ----- rfc822Name

  predicate IsAlphaDigit(c: char) {
    '0' <= c <= '9' || 'a' <= c <= 'z' || 'A' <= c <= 'Z'
  }

  predicate IsLocalPartChar(c: char) {
    || IsAlphaDigit(c)
    || c in {'!', '#', '$', '%', '&', '\'', '*', '+', '-', '/', '=', '?', '^', '_', '`', '{', '|', '}', '~', '.'}
  }

  predicate IsAllowedRfc822LocalPart(localPart: string) {
    localPart != "" && forall i :: 0 <= i < |localPart| ==> IsLocalPartChar(localPart[i])
  }

  predicate IsAllowedRfc822Domain(domain: string) {
    domain != "" && forall i :: 0 <= i < |domain| ==> IsAlphaDigit(domain[i]) || domain[i] == '-' || domain[i] == '.'
  }

  datatype Rfc822NameMatchType = Permitted | Excluded

  /** A constraint that cannot be read matches everything excluded and nothing permitted. */
  predicate Rfc822NameMatches(localPart: string, domain: string, rfc822Constraint: string,
                              matchType: Rfc822NameMatchType,
                              caseInsensitiveLocalPart: bool) {
    var errorValue := matchType == Excluded;
    var parts := SplitString(rfc822Constraint, '@');
    if |parts| != 1 && |parts| != 2 then errorValue
    else if |parts| == 2 && !IsAllowedRfc822LocalPart(parts[0]) then errorValue
    else
      var constraintDomain := parts[|parts| - 1];
      if !IsAllowedRfc822Domain(constraintDomain) then errorValue
      else if |parts| == 2 then
        (if caseInsensitiveLocalPart then IsEqualNoCase(localPart, parts[0]) else localPart == parts[0])
        && IsEqualNoCase(domain, constraintDomain)
      else if constraintDomain[0] == '.' then EndsWithNoCase(domain, constraintDomain)
      else IsEqualNoCase(domain, constraintDomain)
  }

  predicate PermittedRfc822Name(name: string, excluded: seq<string>, permitted: seq<string>, constrained: bool,
                                caseInsensitiveExclude: bool) {
    var parts := SplitString(name, '@');
    && |parts| == 2
    && IsAllowedRfc822LocalPart(parts[0])
    && IsAllowedRfc822Domain(parts[1])
    && (forall i :: 0 <= i < |excluded| ==>
        !Rfc822NameMatches(parts[0], parts[1], excluded[i], Excluded, caseInsensitiveExclude))
    && (constrained ==>
        exists i :: 0 <= i < |permitted| && Rfc822NameMatches(parts[0], parts[1], permitted[i], Permitted, false))
  }

  predicate EndsInDot(s: string) {
    s != "" && s[|s| - 1] == '.'
  }

  /** When a leading-dot mailbox constraint means for the domain what the same dNSName constraint means:
      the mailbox test does not drop trailing dots, so the two agree unless the domain falls in the
      subtree and just one of domain and constraint ends in a dot. For the constraint "." alone, which
      the mailbox test takes for every domain that ends in a dot, the domain must end in two. */
  lemma Rfc822DomainAgreesExactly(localPart: string, domain: string, c: string, matchType: Rfc822NameMatchType,
                                  ignoreCase: bool)
    requires IsAllowedRfc822Domain(c) && c[0] == '.' && domain != ""
    ensures c != "." ==>
      ((Rfc822NameMatches(localPart, domain, c, matchType, ignoreCase) <==> DNSNameMatches(domain, c, FullMatch)) <==>
       ((EndsInDot(domain) <==> EndsInDot(c)) || !DNSNameMatches(domain, c, FullMatch)))
    ensures c == "." ==>
      ((Rfc822NameMatches(localPart, domain, c, matchType, ignoreCase) <==> DNSNameMatches(domain, c, FullMatch)) <==>
       (EndsInDot(domain) ==> domain == "." || EndsInDot(TrimDot(domain))))
  {
    LeadingDotMailbox(localPart, domain, c, matchType, ignoreCase);
    if c == "." {
      RootMailbox(domain);
    } else {
      DotlessEnds(domain, c);
      LeadingDotMatch(TrimDot(domain), TrimDot(c));
    }
  }

  lemma LeadingDotMailbox(localPart: string, domain: string, c: string, matchType: Rfc822NameMatchType,
                          ignoreCase: bool)
    requires IsAllowedRfc822Domain(c) && c[0] == '.'
    ensures Rfc822NameMatches(localPart, domain, c, matchType, ignoreCase) <==> EndsWithNoCase(domain, c)
  {
    assert '@' !in c;
    SplitNone(c, '@');
  }

  lemma RootMailbox(domain: string)
    requires domain != ""
    ensures EndsWithNoCase(domain, ".") <==> EndsInDot(domain)
    ensures DNSNameMatches(domain, ".", FullMatch) <==> TrimDot(domain) == "" || EndsInDot(TrimDot(domain))
  {
    assert TrimDot(".") == "" && LowerAll("") == "";
    var m := |domain| - 1;
    assert domain == domain[..m] + [domain[m]];
    EndsWithParts(domain[..m], [domain[m]], ".");
    LowerAt([domain[m]], 0);
    LowerAt(".", 0);
    assert LowerAll([domain[m]]) == [Lower(domain[m])];
    EndsWithParts(TrimDot(domain), "", "");
    assert TrimDot(domain) + "" == TrimDot(domain);
  }

  /** How the plain suffix test on whole strings relates to the one on trimmed strings. */
  lemma DotlessEnds(domain: string, c: string)
    requires domain != "" && |c| > 1
    ensures EndsInDot(domain) && EndsInDot(c) ==>
      (EndsWithNoCase(domain, c) <==> EndsWithNoCase(TrimDot(domain), TrimDot(c)))
    ensures EndsInDot(domain) != EndsInDot(c) ==> !EndsWithNoCase(domain, c)
  {
    if EndsWithNoCase(domain, c) { SameEnding(domain, c); }
    if EndsInDot(domain) && EndsInDot(c) {
      assert domain == TrimDot(domain) + "." && c == TrimDot(c) + ".";
      DotBehindBoth(TrimDot(domain), TrimDot(c));
    }
  }

  lemma {:induction false} DotBehindBoth(s: string, t: string)
    ensures EndsWithNoCase(s + ".", t + ".") <==> EndsWithNoCase(s, t)
  {
    if |s| > |t| {
      assert (s + ".")[1..] == s[1..] + ".";
      DotBehindBoth(s[1..], t);
    } else {
      LowerConcat(s, ".");
      LowerConcat(t, ".");
      assert (LowerAll(s) + LowerAll("."))[..|s|] == LowerAll(s) && (LowerAll(t) + LowerAll("."))[..|t|] == LowerAll(t);
    }
  }

  lemma {:induction false} SameEnding(s: string, t: string)
    requires t != "" && EndsWithNoCase(s, t)
    ensures EndsInDot(s) <==> EndsInDot(t)
  {
    if |s| > |t| {
      SameEnding(s[1..], t);
    } else {
      LowerAt(s, |s| - 1);
      LowerAt(t, |t| - 1);
    }
  }

  /** A mailbox escapes an excluded domain by a final dot that the DNS test sees through. */
  lemma FinalDotEscapes(localPart: string)
    requires '@' !in localPart
    ensures !Rfc822NameMatches(localPart, "a.b.", ".b", Excluded, false) && IsAllowedRfc822Domain("a.b.")
    ensures DNSNameMatches("a.b.", ".b", FullMatch) && DNSNameMatches("a.b.", ".b", PartialMatch)
    ensures IsAllowedRfc822LocalPart(localPart) ==>
      PermittedRfc822Name(localPart + "@" + "a.b.", [".b"], [], false, false)
  {
    MailboxParts(localPart, "a.b.");
    LeadingDotMailbox(localPart, "a.b.", ".b", Excluded, false);
    DotlessEnds("a.b.", ".b");
    assert TrimDot("a.b.") == "a.b" && TrimDot(".b") == ".b" && "a.b"[1..] == ".b";
    LeadingDotMatch("a.b", ".b");
    PartialVersusFull("a.b.", ".b");
  }

  /** A mailbox can be written; what it is made of is recovered by the split. */
  lemma MailboxParts(localPart: string, domain: string)
    requires '@' !in localPart && '@' !in domain
    ensures SplitString(localPart + "@" + domain, '@') == [localPart, domain]
  {
    SplitAppend(localPart, domain, '@');
    SplitNone(localPart, '@');
    SplitNone(domain, '@');
  }

  /** A mailbox constraint the matcher gives up on: too many parts, a bad local part, or a bad domain. */
  predicate UnreadableMailbox(c: string) {
    var parts := SplitString(c, '@');
    || |parts| !in {1, 2}
    || (|parts| == 2 && !IsAllowedRfc822LocalPart(parts[0]))
    || !IsAllowedRfc822Domain(parts[|parts| - 1])
  }

  function Without<T>(s: seq<T>, i: nat): seq<T>
    requires i < |s|
  {
    s[..i] + s[i + 1..]
  }

  /** One unreadable excluded constraint rejects every mailbox; an unreadable permitted one admits none,
      so it could as well be missing, as long as it keeps mailboxes constrained. */
  lemma UnreadableConstraintFailsSafe(name: string, excluded: seq<string>, permitted: seq<string>, constrained: bool,
                                      ignoreCase: bool)
    ensures (exists i :: 0 <= i < |excluded| && UnreadableMailbox(excluded[i])) ==>
      !PermittedRfc822Name(name, excluded, permitted, constrained, ignoreCase)
    ensures forall i :: 0 <= i < |permitted| && UnreadableMailbox(permitted[i]) ==>
      (PermittedRfc822Name(name, excluded, permitted, constrained, ignoreCase) <==>
       PermittedRfc822Name(name, excluded, Without(permitted, i), constrained, ignoreCase))
  {
    forall i | 0 <= i < |permitted| && UnreadableMailbox(permitted[i])
      ensures PermittedRfc822Name(name, excluded, permitted, constrained, ignoreCase) <==>
              PermittedRfc822Name(name, excluded, Without(permitted, i), constrained, ignoreCase)
    {
      UnreadableIsMissing(name, excluded, permitted, constrained, ignoreCase, i);
    }
  }

  lemma UnreadableIsMissing(name: string, excluded: seq<string>, permitted: seq<string>, constrained: bool,
                            ignoreCase: bool, i: nat)
    requires i < |permitted| && UnreadableMailbox(permitted[i])
    ensures PermittedRfc822Name(name, excluded, permitted, constrained, ignoreCase) <==>
            PermittedRfc822Name(name, excluded, Without(permitted, i), constrained, ignoreCase)
  {
    var rest := Without(permitted, i);
    forall j | 0 <= j < |permitted| && j != i ensures exists k :: 0 <= k < |rest| && rest[k] == permitted[j] {
      assert rest[if j < i then j else j - 1] == permitted[j];
    }
    assert forall k :: 0 <= k < |rest| ==> rest[k] == permitted[if k < i then k else k + 1];
  }

  // ----- the other kinds

  predicate PermittedDirectoryName(name: Octets, excluded: seq<Octets>, permitted: seq<Octets>, constrained: bool,
                                   ops: NameOps) {
    && (forall i :: 0 <= i < |excluded| ==> !ops.inSubtree(name, excluded[i]))
    && (constrained ==> exists i :: 0 <= i < |permitted| && ops.inSubtree(name, permitted[i]))
  }

  predicate PermittedIP(ip: Octets, excluded: seq<(Octets, Octets)>, permitted: seq<(Octets, Octets)>,
                        constrained: bool) {
    && (forall i :: 0 <= i < |excluded| ==> !Matches(ip, excluded[i].0, excluded[i].1))
    && (constrained ==> exists i :: 0 <= i < |permitted| && Matches(ip, permitted[i].0, permitted[i].1))
  }

  /** The integer an address spells lies in the aligned interval of a range. */
  ghost predicate InInterval(ip: Octets, r: (Octets, Octets)) {
    && |ip| == |r.0| == |r.1|
    && exists k: nat :: PrefixMask(r.1, k) && InBlock(Value(ip), Block(Value(r.0), 8 * |r.1| - k), 8 * |r.1| - k)
  }

  lemma RangeMeaning(ip: Octets, r: (Octets, Octets))
    requires ValidRange(r)
    ensures Matches(ip, r.0, r.1) <==> InInterval(ip, r)
  {
    if |ip| == |r.1| {
      forall k: nat | PrefixMask(r.1, k)
        ensures Matches(ip, r.0, r.1) <==> InBlock(Value(ip), Block(Value(r.0), 8 * |r.1| - k), 8 * |r.1| - k)
      {
        RangeIsAlignedInterval(ip, r.0, r.1, k);
      }
    }
  }

  /** On parsed subtrees, the check of an address is a check of integer intervals. */
  lemma PermittedIpByIntervals(ip: Octets, excluded: seq<(Octets, Octets)>, permitted: seq<(Octets, Octets)>,
                               constrained: bool)
    requires forall i :: 0 <= i < |excluded| ==> ValidRange(excluded[i])
    requires forall i :: 0 <= i < |permitted| ==> ValidRange(permitted[i])
    ensures PermittedIP(ip, excluded, permitted, constrained) <==>
            (forall i :: 0 <= i < |excluded| ==> !InInterval(ip, excluded[i]))
            && (constrained ==> exists i :: 0 <= i < |permitted| && InInterval(ip, permitted[i]))
  {
    forall i | 0 <= i < |excluded| ensures Matches(ip, excluded[i].0, excluded[i].1) <==> InInterval(ip, excluded[i]) {
      RangeMeaning(ip, excluded[i]);
    }
    forall i | 0 <= i < |permitted|
      ensures Matches(ip, permitted[i].0, permitted[i].1) <==> InInterval(ip, permitted[i])
    {
      RangeMeaning(ip, permitted[i]);
    }
  }

  // ----- a whole certificate

  /** Permitted and excluded subtrees, and the name types they constrain. */
  datatype Constraints = Constraints(permitted: Names, excluded: Names, types: set<NameType>)

  predicate MailboxPermitted(c: Constraints, n: string, ignoreCase: bool) {
    PermittedRfc822Name(n, c.excluded.rfc822Names, c.permitted.rfc822Names, Rfc822Name in c.permitted.present,
                        ignoreCase)
  }

  predicate DnsPermitted(c: Constraints, n: string) {
    PermittedDNSName(n, c.excluded.dnsNames, c.permitted.dnsNames, DnsName in c.permitted.present)
  }

  predicate DirectoryPermitted(c: Constraints, n: Octets, ops: NameOps) {
    PermittedDirectoryName(n, c.excluded.directoryNames, c.permitted.directoryNames,
                           DirectoryName in c.permitted.present, ops)
  }

  predicate IpPermitted(c: Constraints, n: Octets) {
    PermittedIP(n, c.excluded.ipAddressRanges, c.permitted.ipAddressRanges, IpAddress in c.permitted.present)
  }

  predicate PermittedSan(c: Constraints, san: Names, ops: NameOps) {
    && c.types * san.present <= SUPPORTED_NAME_TYPES
    && (Rfc822Name in c.types ==> forall i :: 0 <= i < |san.rfc822Names| ==>
        MailboxPermitted(c, san.rfc822Names[i], false))
    && (forall i :: 0 <= i < |san.dnsNames| ==> DnsPermitted(c, san.dnsNames[i]))
    && (forall i :: 0 <= i < |san.directoryNames| ==> DirectoryPermitted(c, san.directoryNames[i], ops))
    && (forall i :: 0 <= i < |san.ipAddresses| ==> IpPermitted(c, san.ipAddresses[i]))
  }

  predicate PermittedSubjectEmails(c: Constraints, subject: Octets, ops: NameOps) {
    Rfc822Name in c.types ==>
      var found := ops.emailAddresses(subject);
      found.Some? && forall i :: 0 <= i < |found.value| ==> MailboxPermitted(c, found.value[i], true)
  }

  /** Every name of a certificate is permitted. */
  predicate PermittedNames(c: Constraints, subject: Octets, san: Option<Names>, ops: NameOps) {
    && (if san.Some? then PermittedSan(c, san.value, ops) else PermittedSubjectEmails(c, subject, ops))
    && ((san.Some? && subject == []) || DirectoryPermitted(c, subject, ops))
  }

  function SubtreeCount(n: Names): nat {
    |n.rfc822Names| + |n.dnsNames| + |n.directoryNames| + |n.ipAddressRanges|
  }

  function NameCount(subject: Octets, san: Option<Names>): nat {
    if san.Some? then |san.value.rfc822Names| + |san.value.dnsNames| + |san.value.directoryNames|
        + |san.value.ipAddresses|
    else |subject|
  }

  function ConstraintCount(c: Constraints, san: Option<Names>): nat {
    if san.Some? then SubtreeCount(c.excluded) + SubtreeCount(c.permitted)
    else |c.excluded.directoryNames| + |c.permitted.directoryNames|
  }

  /** The verdict with the product of the counts taken over the integers. */
  function Verdict(c: Constraints, subject: Octets, san: Option<Names>, ops: NameOps): seq<CertError> {
    if ConstraintCount(c, san) * NameCount(subject, san) > MAX_CHECKS then [TooManyNameConstraintChecks]
    else if PermittedNames(c, subject, san, ops) then []
    else [NotPermittedByNameConstraints]
  }

  lemma ProductNat(a: nat, b: nat)
    ensures a * b >= 0
  {}

  /** The guard on the wrapped product fails exactly when the true product is too large. */
  lemma WrappedProductGuard(constraints: nat, names: nat)
    requires constraints < SIZE_T_RANGE && names < SIZE_T_RANGE
    ensures var checks := constraints * names % SIZE_T_RANGE;
            (constraints > 0 && checks / constraints != names) || checks > MAX_CHECKS <==>
                constraints * names > MAX_CHECKS
  {
    var product := constraints * names;
    if constraints > 0 {
      ProductNat(constraints, names);
      if product < SIZE_T_RANGE {
        QuotientUnique(product, constraints, names, 0);
      } else {
        QuotientBelow(product % SIZE_T_RANGE, constraints, names);
      }
    }
  }

  // ----- how many comparisons a check makes

  /** What one name costs: all excluded subtrees and, at most, all permitted ones. */
  function Cost(excluded: nat, permitted: nat, most: bool): nat {
    excluded + (if most then permitted else 0)
  }

  function NameWork(names: nat, excluded: nat, permitted: nat, most: bool): nat {
    if names == 0 then 0 else NameWork(names - 1, excluded, permitted, most) + Cost(excluded, permitted, most)
  }

  lemma {:induction false} NameWorkIsProduct(names: nat, excluded: nat, permitted: nat, most: bool)
    ensures NameWork(names, excluded, permitted, most) == names * Cost(excluded, permitted, most)
  {
    if names > 0 {
      NameWorkIsProduct(names - 1, excluded, permitted, most);
      MulPlus(Cost(excluded, permitted, most), names - 1, 1);
    }
  }

  /** The comparisons for a subjectAltName: the most there can be, or the fewest when it passes. */
  function SanWork(c: Constraints, san: Names, most: bool): nat {
    (if Rfc822Name in c.types
        then NameWork(|san.rfc822Names|, |c.excluded.rfc822Names|, |c.permitted.rfc822Names|, most) else 0)
    + NameWork(|san.dnsNames|, |c.excluded.dnsNames|, |c.permitted.dnsNames|, most)
    + NameWork(|san.directoryNames|, |c.excluded.directoryNames|, |c.permitted.directoryNames|, most)
    + NameWork(|san.ipAddresses|, |c.excluded.ipAddressRanges|, |c.permitted.ipAddressRanges|, most)
  }

  /** The comparisons for the e-mail addresses of a subject without subjectAltName. */
  function EmailWork(c: Constraints, subject: Octets, ops: NameOps, most: bool): nat {
    if Rfc822Name in c.types && ops.emailAddresses(subject).Some?
    then NameWork(|ops.emailAddresses(subject).value|, |c.excluded.rfc822Names|, |c.permitted.rfc822Names|, most)
    else 0
  }

  function SubjectWork(c: Constraints, subject: Octets, san: Option<Names>, most: bool): nat {
    if san.Some? && subject == [] then 0 else Cost(|c.excluded.directoryNames|, |c.permitted.directoryNames|, most)
  }

  function Work(c: Constraints, subject: Octets, san: Option<Names>, ops: NameOps, most: bool): nat {
    (if san.Some? then SanWork(c, san.value, most) else EmailWork(c, subject, ops, most))
        + SubjectWork(c, subject, san, most)
  }

  lemma {:induction false} MoreNames(few: nat, many: nat, excluded: nat, permitted: nat, most: bool)
    requires few <= many
    ensures NameWork(few, excluded, permitted, most) <= NameWork(many, excluded, permitted, most)
  {
    if few < many { MoreNames(few, many - 1, excluded, permitted, most); }
  }

  /** The loop over one list of mailbox subtrees. */
  method SomeMailboxMatches(localPart: string, domain: string, subtrees: seq<string>, matchType: Rfc822NameMatchType,
                            ignoreCase: bool) returns (r: bool, ghost work: nat)
    ensures r <==>
      exists i :: 0 <= i < |subtrees| && Rfc822NameMatches(localPart, domain, subtrees[i], matchType, ignoreCase)
    ensures if r then work <= |subtrees| else work == |subtrees|
  {
    work := 0;
    for i := 0 to |subtrees|
      invariant forall j :: 0 <= j < i ==> !Rfc822NameMatches(localPart, domain, subtrees[j], matchType, ignoreCase)
      invariant work == i
    {
      work := work + 1;
      if Rfc822NameMatches(localPart, domain, subtrees[i], matchType, ignoreCase) {
        return true, work;
      }
    }
    return false, work;
  }

  class NameConstraints {
    var permitted: Names
    var excluded: Names
    var constrainedNameTypes: set<NameType>

    ghost predicate ValidSubtrees()
      reads this
    {
      GeneralNames.Valid(permitted) && GeneralNames.Valid(excluded)
    }

    function View(): Constraints
      reads this
    {
      Constraints(permitted, excluded, constrainedNameTypes)
    }

    constructor ()
      ensures ValidSubtrees() && View() == Constraints(NO_NAMES, NO_NAMES, {})
    {
      permitted, excluded, constrainedNameTypes := NO_NAMES, NO_NAMES, {};
    }

    constructor FromPermittedSubtrees(subtrees: Names)
      requires GeneralNames.Valid(subtrees)
      ensures ValidSubtrees() && View() == Constraints(subtrees, NO_NAMES, subtrees.present)
    {
      permitted, excluded, constrainedNameTypes := subtrees, NO_NAMES, subtrees.present;
    }

    /** Fills the object from a framed extension value. On success the constrained types are the types
        of the subtrees, all of them when the extension is critical and the supported ones otherwise. */
    method Parse(extension: RawExtension, isCritical: bool, sequenceValue: Octets -> Option<Octets>, errors: CertErrors)
      returns (ok: bool)
      requires View() == Constraints(NO_NAMES, NO_NAMES, {})
      modifies this, errors
      ensures ValidSubtrees()
      ensures ok ==> permitted.present + excluded.present != {}
      ensures ok ==> constrainedNameTypes == ConstrainedTypes(permitted, excluded, isCritical)
      ensures ok ==> forall t :: t in constrainedNameTypes <==>
        && (t in permitted.present || t in excluded.present)
        && (isCritical || t == Rfc822Name || t == DnsName || t == DirectoryName || t == IpAddress)
      ensures ok <==> ReadableExtension(extension, sequenceValue)
      ensures ok ==> permitted == FillOptional(extension.permitted, sequenceValue)
      ensures ok ==> excluded == FillOptional(extension.excluded, sequenceValue)
    {
      if extension.Unframed? {
        return false;
      }
      if extension.permitted.Some? {
        ok, permitted := ParseGeneralSubtrees(extension.permitted.value, sequenceValue, permitted, errors);
        if !ok { return; }
      }
      constrainedNameTypes := constrainedNameTypes
          + (if isCritical then permitted.present else permitted.present * SUPPORTED_NAME_TYPES);
      if extension.excluded.Some? {
        ok, excluded := ParseGeneralSubtrees(extension.excluded.value, sequenceValue, excluded, errors);
        if !ok { return; }
      }
      constrainedNameTypes := constrainedNameTypes
          + (if isCritical then excluded.present else excluded.present * SUPPORTED_NAME_TYPES);
      if extension.permitted.None? && extension.excluded.None? {
        return false;
      }
      return !extension.more;
    }

    method IsPermittedRfc822Name(name: string, caseInsensitiveExclude: bool) returns (r: bool, ghost work: nat)
      ensures r <==> MailboxPermitted(View(), name, caseInsensitiveExclude)
      ensures work <= |excluded.rfc822Names| + |permitted.rfc822Names| && (r ==> work >= |excluded.rfc822Names|)
    {
      var parts := SplitString(name, '@');
      if |parts| != 2 || !IsAllowedRfc822LocalPart(parts[0]) || !IsAllowedRfc822Domain(parts[1]) {
        return false, 0;
      }
      r, work := SomeMailboxMatches(parts[0], parts[1], excluded.rfc822Names, Excluded, caseInsensitiveExclude);
      if r {
        return false, work;
      }
      if Rfc822Name !in permitted.present {
        return true, work;
      }
      ghost var more;
      r, more := SomeMailboxMatches(parts[0], parts[1], permitted.rfc822Names, Permitted, false);
      work := work + more;
    }

    method IsPermittedDNSName(name: string) returns (r: bool, ghost work: nat)
      ensures r <==> DnsPermitted(View(), name)
      ensures work <= |excluded.dnsNames| + |permitted.dnsNames| && (r ==> work >= |excluded.dnsNames|)
    {
      work := 0;
      for i := 0 to |excluded.dnsNames|
        invariant forall j :: 0 <= j < i ==> !DNSNameMatches(name, excluded.dnsNames[j], PartialMatch)
        invariant work == i
      {
        work := work + 1;
        if DNSNameMatches(name, excluded.dnsNames[i], PartialMatch) {
          return false, work;
        }
      }
      if DnsName !in permitted.present {
        return true, work;
      }
      for i := 0 to |permitted.dnsNames|
        invariant forall j :: 0 <= j < i ==> !DNSNameMatches(name, permitted.dnsNames[j], FullMatch)
        invariant work == |excluded.dnsNames| + i
      {
        work := work + 1;
        if DNSNameMatches(name, permitted.dnsNames[i], FullMatch) {
          return true, work;
        }
      }
      return false, work;
    }

    method IsPermittedDirectoryName(name: Octets, ops: NameOps) returns (r: bool, ghost work: nat)
      ensures r <==> DirectoryPermitted(View(), name, ops)
      ensures work <= |excluded.directoryNames| + |permitted.directoryNames|
        && (r ==> work >= |excluded.directoryNames|)
    {
      work := 0;
      for i := 0 to |excluded.directoryNames|
        invariant forall j :: 0 <= j < i ==> !ops.inSubtree(name, excluded.directoryNames[j])
        invariant work == i
      {
        work := work + 1;
        if ops.inSubtree(name, excluded.directoryNames[i]) {
          return false, work;
        }
      }
      if DirectoryName !in permitted.present {
        return true, work;
      }
      for i := 0 to |permitted.directoryNames|
        invariant forall j :: 0 <= j < i ==> !ops.inSubtree(name, permitted.directoryNames[j])
        invariant work == |excluded.directoryNames| + i
      {
        work := work + 1;
        if ops.inSubtree(name, permitted.directoryNames[i]) {
          return true, work;
        }
      }
      return false, work;
    }

    method IsPermittedIP(ip: Octets) returns (r: bool, ghost work: nat)
      ensures r <==> IpPermitted(View(), ip)
      ensures work <= |excluded.ipAddressRanges| + |permitted.ipAddressRanges|
        && (r ==> work >= |excluded.ipAddressRanges|)
    {
      work := 0;
      for i := 0 to |excluded.ipAddressRanges|
        invariant forall j :: 0 <= j < i ==> !Matches(ip, excluded.ipAddressRanges[j].0, excluded.ipAddressRanges[j].1)
        invariant work == i
      {
        work := work + 1;
        var hit := IPAddressMatchesWithNetmask(ip, excluded.ipAddressRanges[i].0, excluded.ipAddressRanges[i].1);
        if hit {
          return false, work;
        }
      }
      if IpAddress !in permitted.present {
        return true, work;
      }
      for i := 0 to |permitted.ipAddressRanges|
        invariant forall j :: 0 <= j < i ==>
          !Matches(ip, permitted.ipAddressRanges[j].0, permitted.ipAddressRanges[j].1)
        invariant work == |excluded.ipAddressRanges| + i
      {
        work := work + 1;
        var hit := IPAddressMatchesWithNetmask(ip, permitted.ipAddressRanges[i].0, permitted.ipAddressRanges[i].1);
        if hit {
          return true, work;
        }
      }
      return false, work;
    }

    /** The loops over subjectAltName, each stopping at the first name that is not permitted. */
    method CheckSubjectAltNames(san: Names, ops: NameOps) returns (ok: bool, ghost work: nat)
      ensures ok <==> PermittedSan(View(), san, ops)
      ensures work <= SanWork(View(), san, true) && (ok ==> work >= SanWork(View(), san, false))
    {
      work := 0;
      if !(constrainedNameTypes * san.present <= SUPPORTED_NAME_TYPES) {
        return false, work;
      }
      ghost var more;
      if Rfc822Name in constrainedNameTypes {
        ok, more := CheckRfc822Names(san.rfc822Names, false);
        work := work + more;
        if !ok { return; }
      }
      ok, more := CheckDnsNames(san.dnsNames);
      work := work + more;
      if !ok { return; }
      ok, more := CheckDirectoryNames(san.directoryNames, ops);
      work := work + more;
      if !ok { return; }
      ok, more := CheckIpAddresses(san.ipAddresses);
      work := work + more;
    }

    method CheckRfc822Names(names: seq<string>, caseInsensitiveExclude: bool) returns (ok: bool, ghost work: nat)
      ensures ok <==> forall k :: 0 <= k < |names| ==>
          MailboxPermitted(View(), names[k], caseInsensitiveExclude)
      ensures work <= NameWork(|names|, |excluded.rfc822Names|, |permitted.rfc822Names|, true)
      ensures ok ==> work >= NameWork(|names|, |excluded.rfc822Names|, |permitted.rfc822Names|, false)
    {
      work := 0;
      for i := 0 to |names|
        invariant forall k :: 0 <= k < i ==>
            MailboxPermitted(View(), names[k], caseInsensitiveExclude)
        invariant NameWork(i, |excluded.rfc822Names|, |permitted.rfc822Names|, false) <= work <= NameWork(i,
            |excluded.rfc822Names|, |permitted.rfc822Names|, true)
      {
        ghost var more;
        ok, more := IsPermittedRfc822Name(names[i], caseInsensitiveExclude);
        MoreNames(i + 1, |names|, |excluded.rfc822Names|, |permitted.rfc822Names|, true);
        work := work + more;
        if !ok { return; }
      }
      return true, work;
    }

    method CheckDnsNames(names: seq<string>) returns (ok: bool, ghost work: nat)
      ensures ok <==> forall k :: 0 <= k < |names| ==> DnsPermitted(View(), names[k])
      ensures work <= NameWork(|names|, |excluded.dnsNames|, |permitted.dnsNames|, true)
      ensures ok ==> work >= NameWork(|names|, |excluded.dnsNames|, |permitted.dnsNames|, false)
    {
      ghost var e, p := |excluded.dnsNames|, |permitted.dnsNames|;
      work := 0;
      for i := 0 to |names|
        invariant forall k :: 0 <= k < i ==> DnsPermitted(View(), names[k])
        invariant NameWork(i, e, p, false) <= work <= NameWork(i, e, p, true)
      {
        ghost var more;
        ok, more := IsPermittedDNSName(names[i]);
        MoreNames(i + 1, |names|, e, p, true);
        work := work + more;
        if !ok { return; }
      }
      return true, work;
    }

    method CheckDirectoryNames(names: seq<Octets>, ops: NameOps) returns (ok: bool, ghost work: nat)
      ensures ok <==> forall k :: 0 <= k < |names| ==>
          DirectoryPermitted(View(), names[k], ops)
      ensures work <= NameWork(|names|, |excluded.directoryNames|, |permitted.directoryNames|, true)
      ensures ok ==> work >= NameWork(|names|, |excluded.directoryNames|, |permitted.directoryNames|, false)
    {
      work := 0;
      for i := 0 to |names|
        invariant forall k :: 0 <= k < i ==>
            DirectoryPermitted(View(), names[k], ops)
        invariant NameWork(i, |excluded.directoryNames|, |permitted.directoryNames|, false) <= work <= NameWork(i,
            |excluded.directoryNames|, |permitted.directoryNames|, true)
      {
        ghost var more;
        ok, more := IsPermittedDirectoryName(names[i], ops);
        MoreNames(i + 1, |names|, |excluded.directoryNames|, |permitted.directoryNames|, true);
        work := work + more;
        if !ok { return; }
      }
      return true, work;
    }

    method CheckIpAddresses(names: seq<Octets>) returns (ok: bool, ghost work: nat)
      ensures ok <==> forall k :: 0 <= k < |names| ==> IpPermitted(View(), names[k])
      ensures work <= NameWork(|names|, |excluded.ipAddressRanges|, |permitted.ipAddressRanges|, true)
      ensures ok ==> work >= NameWork(|names|, |excluded.ipAddressRanges|, |permitted.ipAddressRanges|, false)
    {
      work := 0;
      for i := 0 to |names|
        invariant forall k :: 0 <= k < i ==> IpPermitted(View(), names[k])
        invariant NameWork(i, |excluded.ipAddressRanges|, |permitted.ipAddressRanges|, false) <= work <= NameWork(i,
            |excluded.ipAddressRanges|, |permitted.ipAddressRanges|, true)
      {
        ghost var more;
        ok, more := IsPermittedIP(names[i]);
        MoreNames(i + 1, |names|, |excluded.ipAddressRanges|, |permitted.ipAddressRanges|, true);
        work := work + more;
        if !ok { return; }
      }
      return true, work;
    }

    /** Appends at most one error. The counts come from certificates, so they fit the machine word. The
        ghost result counts the comparisons of a name with a subtree. */
    method IsPermittedCert(subject: Octets, san: Option<Names>, ops: NameOps, errors: CertErrors)
        returns (ghost work: nat)
      requires ConstraintCount(View(), san) < SIZE_T_RANGE && NameCount(subject, san) < SIZE_T_RANGE
      modifies errors
      ensures errors.ids == old(errors.ids) + Verdict(View(), subject, san, ops)
      ensures work <= Work(View(), subject, san, ops, true)
      ensures Verdict(View(), subject, san, ops) == [] ==> work >= Work(View(), subject, san, ops, false)
      ensures Verdict(View(), subject, san, ops) == [TooManyNameConstraintChecks] ==> work == 0
    {
      work := 0;
      var nameCount, constraintCount := NameCount(subject, san), ConstraintCount(View(), san);
      var checkCount := constraintCount * nameCount % SIZE_T_RANGE;
      WrappedProductGuard(constraintCount, nameCount);
      if (constraintCount > 0 && checkCount / constraintCount != nameCount) || checkCount > MAX_CHECKS {
        errors.AddError(TooManyNameConstraintChecks);
        return;
      }
      var ok;
      ok, work := CheckNames(subject, san, ops);
      if !ok {
        errors.AddError(NotPermittedByNameConstraints);
      }
    }

    /** The checks behind the guard; every failure adds the same error. */
    method CheckNames(subject: Octets, san: Option<Names>, ops: NameOps) returns (ok: bool, ghost work: nat)
      ensures ok <==> PermittedNames(View(), subject, san, ops)
      ensures work <= Work(View(), subject, san, ops, true)
      ensures ok ==> work >= Work(View(), subject, san, ops, false)
    {
      work := 0;
      ghost var more;
      var emails := [];
      if san.None? && Rfc822Name in constrainedNameTypes {
        var found := ops.emailAddresses(subject);
        if found.None? {
          return false, work;
        }
        emails := found.value;
      }
      if san.Some? {
        ok, more := CheckSubjectAltNames(san.value, ops);
        work := work + more;
        if !ok { return; }
      }
      ok, more := CheckRfc822Names(emails, true);
      work := work + more;
      if !ok { return; }
      if san.Some? && subject == [] {
        return;
      }
      ok, more := IsPermittedDirectoryName(subject, ops);
      work := work + more;
    }
  }

  // ----- parsing

  /** A GeneralSubtree whose base name is framed; `more` says that minimum or maximum follow. */
  datatype RawSubtree = Malformed | RawSubtree(base: Tlv, more: bool)

  datatype RawExtension = Unframed | RawExtension(permitted: Option<seq<RawSubtree>>, excluded: Option<seq<RawSubtree>>,
                                                  more: bool)

  function ConstrainedTypes(permitted: Names, excluded: Names, isCritical: bool): set<NameType> {
    var all := permitted.present + excluded.present;
    if isCritical then all else all * SUPPORTED_NAME_TYPES
  }

  /** A subtree the parser accepts: framed, without distances, with a base name that can be read. */
  ghost predicate Readable(s: RawSubtree, sequenceValue: Octets -> Option<Octets>) {
    s.RawSubtree? && !s.more && Spelled(s.base, AddressAndNetmask, sequenceValue).Some?
  }

  ghost predicate ReadableList(value: Option<seq<RawSubtree>>, sequenceValue: Octets -> Option<Octets>) {
    value.Some? ==> value.value != [] && forall k :: 0 <= k < |value.value| ==> Readable(value.value[k], sequenceValue)
  }

  /** An extension that is accepted: at least one list, and every list readable. */
  ghost predicate ReadableExtension(e: RawExtension, sequenceValue: Octets -> Option<Octets>) {
    e.RawExtension? && !e.more && (e.permitted.Some? || e.excluded.Some?)
    && ReadableList(e.permitted, sequenceValue) && ReadableList(e.excluded, sequenceValue)
  }

  /** Nothing may follow a base name, and nothing the two lists; a list may be absent but not empty, and
      one of the two is present. */
  lemma ReadableMeans(e: RawExtension, sequenceValue: Octets -> Option<Octets>)
    ensures ReadableExtension(e, sequenceValue) <==>
      && e.RawExtension? && !e.more && !(e.permitted.None? && e.excluded.None?)
      && (e.permitted.None? || NamesOnly(e.permitted.value, sequenceValue))
      && (e.excluded.None? || NamesOnly(e.excluded.value, sequenceValue))
  {
    if e.RawExtension? && e.permitted.Some? { ReadableListMeans(e.permitted.value, sequenceValue); }
    if e.RawExtension? && e.excluded.Some? { ReadableListMeans(e.excluded.value, sequenceValue); }
  }

  lemma ReadableListMeans(list: seq<RawSubtree>, sequenceValue: Octets -> Option<Octets>)
    ensures ReadableList(Some(list), sequenceValue) <==> NamesOnly(list, sequenceValue)
  {
    forall k | 0 <= k < |list|
      ensures Readable(list[k], sequenceValue) <==> NamesSomething(list[k], sequenceValue)
    {
    }
  }

  /** A list that is not empty, each of whose entries names something. */
  ghost predicate NamesOnly(list: seq<RawSubtree>, sequenceValue: Octets -> Option<Octets>) {
    |list| > 0 && forall s :: s in list ==> NamesSomething(s, sequenceValue)
  }

  ghost predicate NamesSomething(s: RawSubtree, sequenceValue: Octets -> Option<Octets>) {
    match s
    case Malformed => false
    case RawSubtree(base, more) => !more && exists e :: Spells(base, AddressAndNetmask, sequenceValue, e)
  }

  /** The names of a list of readable subtrees, pushed in order. */
  ghost function Fill(n: Names, value: seq<RawSubtree>, sequenceValue: Octets -> Option<Octets>): Names
    requires forall k :: 0 <= k < |value| ==> Readable(value[k], sequenceValue)
  {
    if value == [] then n
    else
      var last := |value| - 1;
      assert Readable(value[last], sequenceValue);
      Push(Fill(n, value[..last], sequenceValue), Spelled(value[last].base, AddressAndNetmask, sequenceValue).value)
  }

  ghost function FillOptional(value: Option<seq<RawSubtree>>, sequenceValue: Octets -> Option<Octets>): Names
    requires ReadableList(value, sequenceValue)
  {
    if value.Some? then Fill(NO_NAMES, value.value, sequenceValue) else NO_NAMES
  }

  lemma FillNext(n: Names, value: seq<RawSubtree>, i: nat, sequenceValue: Octets -> Option<Octets>)
    requires i < |value| && forall k :: 0 <= k <= i ==> Readable(value[k], sequenceValue)
    ensures Fill(n, value[..i + 1], sequenceValue)
         == Push(Fill(n, value[..i], sequenceValue), Spelled(value[i].base, AddressAndNetmask, sequenceValue).value)
  {
    assert value[..i + 1][..i] == value[..i];
  }

  method ParseGeneralSubtrees(value: seq<RawSubtree>, sequenceValue: Octets -> Option<Octets>, subtrees: Names,
                              errors: CertErrors)
    returns (ok: bool, out: Names)
    requires GeneralNames.Valid(subtrees)
    modifies errors
    ensures GeneralNames.Valid(out)
    ensures ok <==> value != [] && forall k :: 0 <= k < |value| ==> Readable(value[k], sequenceValue)
    ensures ok ==> out == Fill(subtrees, value, sequenceValue) && out.present != {}
  {
    out := subtrees;
    if value == [] {
      return false, out;
    }
    for i := 0 to |value|
      invariant GeneralNames.Valid(out)
      invariant i > 0 ==> out.present != {}
      invariant forall k :: 0 <= k < i ==> Readable(value[k], sequenceValue)
      invariant out == Fill(subtrees, value[..i], sequenceValue)
    {
      if value[i].Malformed? {
        return false, out;
      }
      var parsed;
      var error;
      parsed, out, error := ParseGeneralName(value[i].base, AddressAndNetmask, sequenceValue, out);
      if !parsed {
        errors.AddError(FailedParsingGeneralName);
        return false, out;
      }
      if value[i].more {
        return false, out;
      }
      FillNext(subtrees, value, i, sequenceValue);
    }
    assert value[..|value|] == value;
    return true, out;
  }

  // ----- how verdicts respond to more subtrees

  /** The names of two structures together. */
  function Merge(a: Names, b: Names): Names {
    Names(a.otherNames + b.otherNames, a.rfc822Names + b.rfc822Names, a.dnsNames + b.dnsNames,
          a.x400Addresses + b.x400Addresses, a.directoryNames + b.directoryNames, a.ediPartyNames + b.ediPartyNames,
          a.uris + b.uris, a.ipAddresses + b.ipAddresses, a.ipAddressRanges + b.ipAddressRanges,
          a.registeredIds + b.registeredIds, a.present + b.present)
  }

  lemma MoreExcludedDns(n: string, e: seq<string>, x: seq<string>, p: seq<string>, k: bool)
    requires PermittedDNSName(n, e + x, p, k)
    ensures PermittedDNSName(n, e, p, k)
  {
    forall i | 0 <= i < |e| ensures !DNSNameMatches(n, e[i], PartialMatch) { assert (e + x)[i] == e[i]; }
  }

  lemma MoreExcludedRfc822(n: string, e: seq<string>, x: seq<string>, p: seq<string>, k: bool, ci: bool)
    requires PermittedRfc822Name(n, e + x, p, k, ci)
    ensures PermittedRfc822Name(n, e, p, k, ci)
  {
    assert forall i :: 0 <= i < |e| ==> (e + x)[i] == e[i];
  }

  lemma MoreExcludedDirectory(n: Octets, e: seq<Octets>, x: seq<Octets>, p: seq<Octets>, k: bool, ops: NameOps)
    requires PermittedDirectoryName(n, e + x, p, k, ops)
    ensures PermittedDirectoryName(n, e, p, k, ops)
  {
    forall i | 0 <= i < |e| ensures !ops.inSubtree(n, e[i]) { assert (e + x)[i] == e[i]; }
  }

  lemma MoreExcludedIp(n: Octets, e: seq<(Octets, Octets)>, x: seq<(Octets, Octets)>, p: seq<(Octets, Octets)>, k: bool)
    requires PermittedIP(n, e + x, p, k)
    ensures PermittedIP(n, e, p, k)
  {
    forall i | 0 <= i < |e| ensures !Matches(n, e[i].0, e[i].1) { assert (e + x)[i] == e[i]; }
  }

  lemma MoreExcludedSan(p: Names, e: Names, x: Names, isCritical: bool, san: Names, ops: NameOps)
    requires PermittedSan(Constraints(p, Merge(e, x), ConstrainedTypes(p, Merge(e, x), isCritical)), san, ops)
    ensures PermittedSan(Constraints(p, e, ConstrainedTypes(p, e, isCritical)), san, ops)
  {
    forall i | 0 <= i < |san.dnsNames|
      ensures PermittedDNSName(san.dnsNames[i], e.dnsNames, p.dnsNames, DnsName in p.present)
    {
      MoreExcludedDns(san.dnsNames[i], e.dnsNames, x.dnsNames, p.dnsNames, DnsName in p.present);
    }
    forall i | 0 <= i < |san.directoryNames|
      ensures PermittedDirectoryName(san.directoryNames[i], e.directoryNames, p.directoryNames,
                                     DirectoryName in p.present, ops)
    {
      MoreExcludedDirectory(san.directoryNames[i], e.directoryNames, x.directoryNames, p.directoryNames,
                            DirectoryName in p.present, ops);
    }
    forall i | 0 <= i < |san.ipAddresses|
      ensures PermittedIP(san.ipAddresses[i], e.ipAddressRanges, p.ipAddressRanges, IpAddress in p.present)
    {
      MoreExcludedIp(san.ipAddresses[i], e.ipAddressRanges, x.ipAddressRanges, p.ipAddressRanges,
                     IpAddress in p.present);
    }
    if Rfc822Name in ConstrainedTypes(p, e, isCritical) {
      forall i | 0 <= i < |san.rfc822Names|
        ensures PermittedRfc822Name(san.rfc822Names[i], e.rfc822Names, p.rfc822Names, Rfc822Name in p.present, false)
      {
        MoreExcludedRfc822(san.rfc822Names[i], e.rfc822Names, x.rfc822Names, p.rfc822Names, Rfc822Name in p.present,
                           false);
      }
    }
  }

  /** Adding excluded subtrees never turns a rejected certificate into an accepted one. */
  lemma ExcludedSubtreesOnlyReject(p: Names, e: Names, x: Names, isCritical: bool, subject: Octets, san: Option<Names>,
                                   ops: NameOps)
    requires Verdict(Constraints(p, Merge(e, x), ConstrainedTypes(p, Merge(e, x), isCritical)), subject, san, ops) == []
    ensures Verdict(Constraints(p, e, ConstrainedTypes(p, e, isCritical)), subject, san, ops) == []
  {
    var c := Constraints(p, e, ConstrainedTypes(p, e, isCritical));
    var d := Constraints(p, Merge(e, x), ConstrainedTypes(p, Merge(e, x), isCritical));
    FewerChecks(ConstraintCount(c, san), ConstraintCount(d, san), NameCount(subject, san));
    if san.Some? {
      MoreExcludedSan(p, e, x, isCritical, san.value, ops);
    } else if Rfc822Name in c.types {
      var found := ops.emailAddresses(subject).value;
      forall i | 0 <= i < |found|
        ensures PermittedRfc822Name(found[i], e.rfc822Names, p.rfc822Names, Rfc822Name in p.present, true)
      {
        MoreExcludedRfc822(found[i], e.rfc822Names, x.rfc822Names, p.rfc822Names, Rfc822Name in p.present, true);
      }
    }
    if !(san.Some? && subject == []) {
      MoreExcludedDirectory(subject, e.directoryNames, x.directoryNames, p.directoryNames, DirectoryName in p.present,
                            ops);
    }
  }

  lemma FewerChecks(few: nat, many: nat, names: nat)
    requires few <= many && many * names <= MAX_CHECKS
    ensures few * names <= MAX_CHECKS
  {
    assert few * names <= many * names;
  }

  lemma MorePermittedDns(n: string, e: seq<string>, p: seq<string>, x: seq<string>, k: bool)
    requires PermittedDNSName(n, e, p, k)
    ensures PermittedDNSName(n, e, p + x, k)
  {
    if k {
      var i :| 0 <= i < |p| && DNSNameMatches(n, p[i], FullMatch);
      assert (p + x)[i] == p[i];
    }
  }

  lemma MorePermittedRfc822(n: string, e: seq<string>, p: seq<string>, x: seq<string>, k: bool, ci: bool)
    requires PermittedRfc822Name(n, e, p, k, ci)
    ensures PermittedRfc822Name(n, e, p + x, k, ci)
  {
    assert forall i :: 0 <= i < |p| ==> (p + x)[i] == p[i];
  }

  lemma MorePermittedDirectory(n: Octets, e: seq<Octets>, p: seq<Octets>, x: seq<Octets>, k: bool, ops: NameOps)
    requires PermittedDirectoryName(n, e, p, k, ops)
    ensures PermittedDirectoryName(n, e, p + x, k, ops)
  {
    if k {
      var i :| 0 <= i < |p| && ops.inSubtree(n, p[i]);
      assert (p + x)[i] == p[i];
    }
  }

  lemma MorePermittedIp(n: Octets, e: seq<(Octets, Octets)>, p: seq<(Octets, Octets)>, x: seq<(Octets, Octets)>,
                        k: bool)
    requires PermittedIP(n, e, p, k)
    ensures PermittedIP(n, e, p + x, k)
  {
    if k {
      var i :| 0 <= i < |p| && Matches(n, p[i].0, p[i].1);
      assert (p + x)[i] == p[i];
    }
  }

  lemma MorePermittedSan(c: Constraints, x: Names, san: Names, ops: NameOps)
    requires x.present <= c.permitted.present && PermittedSan(c, san, ops)
    ensures PermittedSan(c.(permitted := Merge(c.permitted, x)), san, ops)
  {
    var e, p := c.excluded, c.permitted;
    var q := Merge(p, x);
    assert q.present == p.present;
    forall i | 0 <= i < |san.dnsNames|
      ensures PermittedDNSName(san.dnsNames[i], e.dnsNames, q.dnsNames, DnsName in q.present)
    {
      MorePermittedDns(san.dnsNames[i], e.dnsNames, p.dnsNames, x.dnsNames, DnsName in p.present);
    }
    forall i | 0 <= i < |san.directoryNames|
      ensures PermittedDirectoryName(san.directoryNames[i], e.directoryNames, q.directoryNames,
                                     DirectoryName in q.present, ops)
    {
      MorePermittedDirectory(san.directoryNames[i], e.directoryNames, p.directoryNames, x.directoryNames,
                             DirectoryName in p.present, ops);
    }
    forall i | 0 <= i < |san.ipAddresses|
      ensures PermittedIP(san.ipAddresses[i], e.ipAddressRanges, q.ipAddressRanges, IpAddress in q.present)
    {
      MorePermittedIp(san.ipAddresses[i], e.ipAddressRanges, p.ipAddressRanges, x.ipAddressRanges,
                      IpAddress in p.present);
    }
    if Rfc822Name in c.types {
      forall i | 0 <= i < |san.rfc822Names|
        ensures PermittedRfc822Name(san.rfc822Names[i], e.rfc822Names, q.rfc822Names, Rfc822Name in q.present, false)
      {
        MorePermittedRfc822(san.rfc822Names[i], e.rfc822Names, p.rfc822Names, x.rfc822Names, Rfc822Name in p.present,
                            false);
      }
    }
  }

  /** Adding permitted subtrees of types that are already constrained never makes a permitted
      certificate fail, except by exceeding the work limit. */
  lemma PermittedSubtreesOnlyAdmit(c: Constraints, x: Names, subject: Octets, san: Option<Names>, ops: NameOps)
    requires x.present <= c.permitted.present && Verdict(c, subject, san, ops) == []
    ensures var wider := c.(permitted := Merge(c.permitted, x));
            Verdict(wider, subject, san, ops) ==
            if ConstraintCount(wider, san) * NameCount(subject, san) > MAX_CHECKS then [TooManyNameConstraintChecks]
                else []
  {
    var e, p := c.excluded, c.permitted;
    assert Merge(p, x).present == p.present;
    if san.Some? {
      MorePermittedSan(c, x, san.value, ops);
    } else if Rfc822Name in c.types {
      var found := ops.emailAddresses(subject).value;
      forall i | 0 <= i < |found|
        ensures PermittedRfc822Name(found[i], e.rfc822Names, p.rfc822Names + x.rfc822Names, Rfc822Name in p.present,
                                    true)
      {
        MorePermittedRfc822(found[i], e.rfc822Names, p.rfc822Names, x.rfc822Names, Rfc822Name in p.present, true);
      }
    }
    if !(san.Some? && subject == []) {
      MorePermittedDirectory(subject, e.directoryNames, p.directoryNames, x.directoryNames, DirectoryName in p.present,
                             ops);
    }
  }

  /** What passing the guard bounds. The comparisons for a subjectAltName are at most 2^20, all types added
      up. The guard does not count those for the subject, one for each directoryName subtree: they are at
      most 2^20 more if the guard counted any name at all. It does not count those for the e-mail addresses
      of a subject at all. */
  lemma WorkIsBounded(c: Constraints, subject: Octets, san: Option<Names>, ops: NameOps)
    requires Verdict(c, subject, san, ops) != [TooManyNameConstraintChecks]
    ensures san.Some? ==> SanWork(c, san.value, true) <= MAX_CHECKS
    ensures NameCount(subject, san) > 0 ==> SubjectWork(c, subject, san, true) <= MAX_CHECKS
    ensures san.Some? && subject == [] ==> Work(c, subject, san, ops, true) <= MAX_CHECKS
    ensures san.Some? && NameCount(subject, san) > 0 ==> Work(c, subject, san, ops, true) <= 2 * MAX_CHECKS
    ensures san.None? ==>
      Work(c, subject, san, ops, true) == EmailWork(c, subject, ops, true) + SubjectWork(c, subject, san, true)
  {
    if san.Some? {
      SanWorkBelowProduct(c, san.value);
    }
    if NameCount(subject, san) > 0 {
      AtLeastOneFactor(ConstraintCount(c, san), NameCount(subject, san));
    }
  }

  lemma AtLeastOneFactor(a: nat, b: nat)
    requires b > 0
    ensures a <= a * b
  {
    MulMinus(a, b, 1);
    ProductNat(a, b - 1);
  }

  lemma SanWorkBelowProduct(c: Constraints, san: Names)
    ensures SanWork(c, san, true) <= ConstraintCount(c, Some(san)) * NameCount([], Some(san))
  {
    var p, e := c.permitted, c.excluded;
    var a, b, d, f := |san.rfc822Names|, |san.dnsNames|, |san.directoryNames|, |san.ipAddresses|;
    var w, x := Cost(|e.rfc822Names|, |p.rfc822Names|, true), Cost(|e.dnsNames|, |p.dnsNames|, true);
    var y := Cost(|e.directoryNames|, |p.directoryNames|, true);
    var z := Cost(|e.ipAddressRanges|, |p.ipAddressRanges|, true);
    NameWorkIsProduct(a, |e.rfc822Names|, |p.rfc822Names|, true);
    NameWorkIsProduct(b, |e.dnsNames|, |p.dnsNames|, true);
    NameWorkIsProduct(d, |e.directoryNames|, |p.directoryNames|, true);
    NameWorkIsProduct(f, |e.ipAddressRanges|, |p.ipAddressRanges|, true);
    SumOfProducts(a, b, d, f, w, x, y, z);
    assert ConstraintCount(c, Some(san)) == w + x + y + z;
  }

  lemma SumOfProducts(a: nat, b: nat, c: nat, d: nat, w: nat, x: nat, y: nat, z: nat)
    ensures a * w + b * x + c * y + d * z <= (w + x + y + z) * (a + b + c + d)
    ensures a * w >= 0
  {
    var t := w + x + y + z;
    Wider(a, w, t);
    Wider(b, x, t);
    Wider(c, y, t);
    Wider(d, z, t);
    MulPlus(t, a + b + c, d);
    MulPlus(t, a + b, c);
    MulPlus(t, a, b);
  }

  lemma Wider(a: nat, w: nat, t: nat)
    requires w <= t
    ensures 0 <= a * w <= t * a
  {
    MulMinus(a, t, w);
    ProductNat(a, t - w);
    ProductNat(a, w);
  }

  /** The bound 2^21 is reached: one directoryName, 2^20 excluded ones, and a subject of its own. */
  lemma SubjectDoublesTheWork() returns (c: Constraints, san: Names, ops: NameOps)
    ensures Verdict(c, [0], Some(san), ops) == [] && Work(c, [0], Some(san), ops, false) == 2 * MAX_CHECKS
  {
    var subtrees: seq<Octets> := seq(MAX_CHECKS, _ => []);
    c := Constraints(NO_NAMES, NO_NAMES.(directoryNames := subtrees, present := {DirectoryName}), {DirectoryName});
    san := NO_NAMES.(directoryNames := [[]], present := {DirectoryName});
    NameWorkIsProduct(1, MAX_CHECKS, 0, false);
    ops := NameOps((name, base) => false, subject => Some([]));
  }

  /** No name that the guard counts, but a subject that is checked: it alone may cost any number. That is a
      subjectAltName of other types with a subject, or no subjectAltName with an empty subject. */
  lemma UncountedNamesBoundNothing(subject: Octets, n: nat) returns (c: Constraints, san: Option<Names>, ops: NameOps)
    ensures san.Some? <==> subject != []
    ensures NameCount(subject, san) == 0
    ensures Verdict(c, subject, san, ops) == [] && Work(c, subject, san, ops, false) == n
  {
    var subtrees: seq<Octets> := seq(n, _ => []);
    c := Constraints(NO_NAMES, NO_NAMES.(directoryNames := subtrees, present := {DirectoryName}), {DirectoryName});
    san := if subject == [] then None else Some(NO_NAMES.(uris := ["u"], present := {UniformResourceIdentifier}));
    ops := NameOps((name, base) => false, subject => Some([]));
  }

  /** Without subjectAltName, mailbox subtrees are not counted: one address may cost any number. */
  lemma MailboxesAreNotCounted(subject: Octets, n: nat) returns (c: Constraints, ops: NameOps)
    requires subject != []
    ensures ConstraintCount(c, None) == 0
    ensures Verdict(c, subject, None, ops) == [] && Work(c, subject, None, ops, false) == n
  {
    var subtrees: seq<string> := seq(n, _ => "h");
    c := Constraints(NO_NAMES, NO_NAMES.(rfc822Names := subtrees, present := {Rfc822Name}), {Rfc822Name});
    ops := NameOps((name, base) => false, subject => Some(["m@g"]));
    MailboxOutside();
    NameWorkIsProduct(1, n, 0, false);
    assert forall i :: 0 <= i < n ==> subtrees[i] == "h";
  }

  /** For a subject, with or without a subjectAltName: passing the guard means at most 2^20 comparisons,
      whatever the subtrees and the other names are. */
  ghost predicate GuardBoundsWork(subject: Octets, withSan: bool) {
    forall c: Constraints, san: Option<Names>, ops: NameOps ::
      san.Some? == withSan && Verdict(c, subject, san, ops) != [TooManyNameConstraintChecks] ==>
      Work(c, subject, san, ops, true) <= MAX_CHECKS
  }

  /** The guard bounds the work by its limit exactly for an empty subject with a subjectAltName. */
  lemma GuardBoundsWorkExactly(subject: Octets, withSan: bool)
    ensures GuardBoundsWork(subject, withSan) <==> withSan && subject == []
  {
    if withSan && subject == [] {
      forall c: Constraints, san: Option<Names>, ops: NameOps |
        san.Some? && Verdict(c, subject, san, ops) != [TooManyNameConstraintChecks]
        ensures Work(c, subject, san, ops, true) <= MAX_CHECKS
      {
        WorkIsBounded(c, subject, san, ops);
      }
    } else if withSan || subject == [] {
      var c, san, ops := UncountedNamesBoundNothing(subject, MAX_CHECKS + 1);
      FewestAtMostMost(c, subject, san, ops);
      assert Work(c, subject, san, ops, true) > MAX_CHECKS;
    } else {
      var c, ops := MailboxesAreNotCounted(subject, MAX_CHECKS + 1);
      FewestAtMostMost(c, subject, None, ops);
      assert Work(c, subject, None, ops, true) > MAX_CHECKS;
    }
  }

  lemma FewestAtMostMost(c: Constraints, subject: Octets, san: Option<Names>, ops: NameOps)
    ensures Work(c, subject, san, ops, false) <= Work(c, subject, san, ops, true)
  {
    forall names: nat, e: nat, p: nat
      ensures NameWork(names, e, p, false) <= NameWork(names, e, p, true)
    {
      CheaperWithoutPermitted(names, e, p);
    }
  }

  lemma {:induction false} CheaperWithoutPermitted(names: nat, e: nat, p: nat)
    ensures NameWork(names, e, p, false) <= NameWork(names, e, p, true)
  {
    if names > 0 { CheaperWithoutPermitted(names - 1, e, p); }
  }

  lemma MailboxOutside()
    ensures SplitString("m@g", '@') == ["m", "g"] && IsAllowedRfc822LocalPart("m") && IsAllowedRfc822Domain("g")
    ensures !Rfc822NameMatches("m", "g", "h", Excluded, true)
  {
    assert '@' !in "m" && '@' !in "g" && '@' !in "h";
    MailboxParts("m", "g");
    assert "m" + "@" + "g" == "m@g";
    SplitNone("h", '@');
    assert LowerAll("g")[0] == 'g' && LowerAll("h")[0] == 'h';
  }

  // ----- the order of lists

  /** The same names, in any order. */
  ghost predicate SameNames(a: Names, b: Names) {
    && a.present == b.present
    && multiset(a.rfc822Names) == multiset(b.rfc822Names)
    && multiset(a.dnsNames) == multiset(b.dnsNames)
    && multiset(a.directoryNames) == multiset(b.directoryNames)
    && multiset(a.ipAddresses) == multiset(b.ipAddresses)
    && multiset(a.ipAddressRanges) == multiset(b.ipAddressRanges)
  }

  ghost predicate SameElements<T(!new)>(a: seq<T>, b: seq<T>) {
    |a| == |b| && forall v :: v in a <==> v in b
  }

  lemma Reordered<T(!new)>(a: seq<T>, b: seq<T>)
    requires multiset(a) == multiset(b)
    ensures SameElements(a, b)
  {
    assert |a| == |multiset(a)| && |b| == |multiset(b)|;
    forall v: T ensures v in a <==> v in b {
      assert v in a <==> v in multiset(a);
      assert v in b <==> v in multiset(b);
    }
  }

  lemma Holds<T(!new)>(a: seq<T>, b: seq<T>, p: T -> bool)
    requires SameElements(a, b)
    ensures (forall i :: 0 <= i < |a| ==> p(a[i])) <==> (forall i :: 0 <= i < |b| ==> p(b[i]))
    ensures (exists i :: 0 <= i < |a| && p(a[i])) <==> (exists i :: 0 <= i < |b| && p(b[i]))
  {
    forall i | 0 <= i < |a| ensures exists j :: 0 <= j < |b| && b[j] == a[i] {
      assert a[i] in b;
    }
    forall i | 0 <= i < |b| ensures exists j :: 0 <= j < |a| && a[j] == b[i] {
      assert b[i] in a;
    }
  }

  lemma SameRfc822(n: string, e: seq<string>, x: seq<string>, p: seq<string>, q: seq<string>, k: bool, ignoreCase: bool)
    requires SameElements(e, x) && SameElements(p, q)
    ensures PermittedRfc822Name(n, e, p, k, ignoreCase) <==> PermittedRfc822Name(n, x, q, k, ignoreCase)
  {
    var parts := SplitString(n, '@');
    if |parts| == 2 {
      Holds(e, x, c => !Rfc822NameMatches(parts[0], parts[1], c, Excluded, ignoreCase));
      Holds(p, q, c => Rfc822NameMatches(parts[0], parts[1], c, Permitted, false));
    }
  }

  lemma SameDns(n: string, e: seq<string>, x: seq<string>, p: seq<string>, q: seq<string>, k: bool)
    requires SameElements(e, x) && SameElements(p, q)
    ensures PermittedDNSName(n, e, p, k) <==> PermittedDNSName(n, x, q, k)
  {
    Holds(e, x, c => !DNSNameMatches(n, c, PartialMatch));
    Holds(p, q, c => DNSNameMatches(n, c, FullMatch));
  }

  lemma SameDirectory(n: Octets, e: seq<Octets>, x: seq<Octets>, p: seq<Octets>, q: seq<Octets>, k: bool, ops: NameOps)
    requires SameElements(e, x) && SameElements(p, q)
    ensures PermittedDirectoryName(n, e, p, k, ops) <==> PermittedDirectoryName(n, x, q, k, ops)
  {
    Holds(e, x, c => !ops.inSubtree(n, c));
    Holds(p, q, c => ops.inSubtree(n, c));
  }

  lemma SameIp(n: Octets, e: seq<(Octets, Octets)>, x: seq<(Octets, Octets)>, p: seq<(Octets, Octets)>,
               q: seq<(Octets, Octets)>, k: bool)
    requires SameElements(e, x) && SameElements(p, q)
    ensures PermittedIP(n, e, p, k) <==> PermittedIP(n, x, q, k)
  {
    Holds(e, x, (c: (Octets, Octets)) => !Matches(n, c.0, c.1));
    Holds(p, q, (c: (Octets, Octets)) => Matches(n, c.0, c.1));
  }

  ghost predicate SameSubtrees(c: Constraints, d: Constraints) {
    SameNames(c.permitted, d.permitted) && SameNames(c.excluded, d.excluded) && c.types == d.types
  }

  lemma SameSan(c: Constraints, d: Constraints, a: Names, b: Names, ops: NameOps)
    requires SameSubtrees(c, d) && SameNames(a, b)
    ensures PermittedSan(c, a, ops) <==> PermittedSan(d, b, ops)
  {
    SameMailboxes(c, d, a.rfc822Names, b.rfc822Names, false);
    SameDnsNames(c, d, a.dnsNames, b.dnsNames);
    SameDirectoryNames(c, d, a.directoryNames, b.directoryNames, ops);
    SameIpAddresses(c, d, a.ipAddresses, b.ipAddresses);
  }


  lemma SameMailboxes(c: Constraints, d: Constraints, a: seq<string>, b: seq<string>, ignoreCase: bool)
    requires SameSubtrees(c, d) && multiset(a) == multiset(b)
    ensures (forall i :: 0 <= i < |a| ==> MailboxPermitted(c, a[i], ignoreCase)) <==>
            (forall i :: 0 <= i < |b| ==> MailboxPermitted(d, b[i], ignoreCase))
  {
    Reordered(a, b);
    Reordered(c.excluded.rfc822Names, d.excluded.rfc822Names);
    Reordered(c.permitted.rfc822Names, d.permitted.rfc822Names);
    Holds(a, b, n => MailboxPermitted(c, n, ignoreCase));
    forall n: string ensures MailboxPermitted(c, n, ignoreCase) <==> MailboxPermitted(d, n, ignoreCase) {
      SameRfc822(n, c.excluded.rfc822Names, d.excluded.rfc822Names, c.permitted.rfc822Names, d.permitted.rfc822Names,
                 Rfc822Name in c.permitted.present, ignoreCase);
    }
  }


  lemma SameDnsNames(c: Constraints, d: Constraints, a: seq<string>, b: seq<string>)
    requires SameSubtrees(c, d) && multiset(a) == multiset(b)
    ensures (forall i :: 0 <= i < |a| ==> DnsPermitted(c, a[i])) <==>
      (forall i :: 0 <= i < |b| ==> DnsPermitted(d, b[i]))
  {
    Reordered(a, b);
    Reordered(c.excluded.dnsNames, d.excluded.dnsNames);
    Reordered(c.permitted.dnsNames, d.permitted.dnsNames);
    Holds(a, b, n => DnsPermitted(c, n));
    forall n: string ensures DnsPermitted(c, n) <==> DnsPermitted(d, n) {
      SameDns(n, c.excluded.dnsNames, d.excluded.dnsNames, c.permitted.dnsNames, d.permitted.dnsNames,
              DnsName in c.permitted.present);
    }
  }


  lemma SameDirectoryNames(c: Constraints, d: Constraints, a: seq<Octets>, b: seq<Octets>, ops: NameOps)
    requires SameSubtrees(c, d) && multiset(a) == multiset(b)
    ensures (forall i :: 0 <= i < |a| ==> DirectoryPermitted(c, a[i], ops)) <==>
            (forall i :: 0 <= i < |b| ==> DirectoryPermitted(d, b[i], ops))
    ensures forall n :: DirectoryPermitted(c, n, ops) <==> DirectoryPermitted(d, n, ops)
  {
    Reordered(a, b);
    Reordered(c.excluded.directoryNames, d.excluded.directoryNames);
    Reordered(c.permitted.directoryNames, d.permitted.directoryNames);
    Holds(a, b, n => DirectoryPermitted(c, n, ops));
    forall n: Octets ensures DirectoryPermitted(c, n, ops) <==> DirectoryPermitted(d, n, ops) {
      SameDirectory(n, c.excluded.directoryNames, d.excluded.directoryNames, c.permitted.directoryNames,
                    d.permitted.directoryNames, DirectoryName in c.permitted.present, ops);
    }
  }


  lemma SameIpAddresses(c: Constraints, d: Constraints, a: seq<Octets>, b: seq<Octets>)
    requires SameSubtrees(c, d) && multiset(a) == multiset(b)
    ensures (forall i :: 0 <= i < |a| ==> IpPermitted(c, a[i])) <==> (forall i :: 0 <= i < |b| ==> IpPermitted(d, b[i]))
  {
    Reordered(a, b);
    Reordered(c.excluded.ipAddressRanges, d.excluded.ipAddressRanges);
    Reordered(c.permitted.ipAddressRanges, d.permitted.ipAddressRanges);
    Holds(a, b, n => IpPermitted(c, n));
    forall n: Octets ensures IpPermitted(c, n) <==> IpPermitted(d, n) {
      SameIp(n, c.excluded.ipAddressRanges, d.excluded.ipAddressRanges, c.permitted.ipAddressRanges,
             d.permitted.ipAddressRanges, IpAddress in c.permitted.present);
    }
  }

  lemma SameCounts(a: Names, b: Names)
    requires SameNames(a, b)
    ensures SubtreeCount(a) == SubtreeCount(b) && |a.directoryNames| == |b.directoryNames|
    ensures NameCount([], Some(a)) == NameCount([], Some(b))
  {
    Reordered(a.rfc822Names, b.rfc822Names);
    Reordered(a.dnsNames, b.dnsNames);
    Reordered(a.directoryNames, b.directoryNames);
    Reordered(a.ipAddresses, b.ipAddresses);
    Reordered(a.ipAddressRanges, b.ipAddressRanges);
  }

  /** The verdict depends neither on the order of subtrees nor on that of names. */
  lemma OrderPlaysNoPart(c: Constraints, d: Constraints, subject: Octets, a: Option<Names>, b: Option<Names>,
                         ops: NameOps)
    requires SameSubtrees(c, d) && (a.Some? <==> b.Some?) && (a.Some? ==> SameNames(a.value, b.value))
    ensures Verdict(c, subject, a, ops) == Verdict(d, subject, b, ops)
  {
    SameCounts(c.permitted, d.permitted);
    SameCounts(c.excluded, d.excluded);
    SameDirectoryNames(c, d, [], [], ops);
    assert DirectoryPermitted(c, subject, ops) <==> DirectoryPermitted(d, subject, ops);
    if a.Some? {
      SameCounts(a.value, b.value);
      SameSan(c, d, a.value, b.value, ops);
    } else if Rfc822Name in c.types && ops.emailAddresses(subject).Some? {
      var found := ops.emailAddresses(subject).value;
      SameMailboxes(c, d, found, found, true);
    }
  }
}
