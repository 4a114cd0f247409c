/** What the name-constraint checks decide, in terms of written-out mailboxes and subtrees (RFC 5280,
    section 4.2.1.10), and of every list of a certificate and its constraints. */
module NameMeanings {
  import opened AsciiText
  import opened DnsNames
  import opened GeneralNames
  import opened IpUtil
  import opened NameConstraints
  import opened Octets
  import opened Options

  // ----- mailboxes

  /** Visible characters but the specials of RFC 5322, section 3.2.3, where a dot is no special here. */
  predicate LocalChars(s: string) {
    s != "" && forall i :: 0 <= i < |s| ==>
      '!' <= s[i] <= '~' && s[i] !in {'(', ')', '<', '>', '[', ']', ':', ';', '@', '\\', ',', '"'}
  }

  /** Letters, digits, hyphens and dots, by their codes. */
  predicate DomainChars(s: string) {
    s != "" && forall i :: 0 <= i < |s| ==>
      var code := s[i] as int;
      45 <= code <= 46 || 48 <= code <= 57 || 65 <= code <= 90 || 97 <= code <= 122
  }

  lemma CharsMean(s: string)
    ensures IsAllowedRfc822LocalPart(s) <==> LocalChars(s)
    ensures IsAllowedRfc822Domain(s) <==> DomainChars(s)
  {
    forall c: char
        ensures IsLocalPartChar(c) <==>
        '!' <= c <= '~' && c !in {'(', ')', '<', '>', '[', ']', ':', ';', '@', '\\', ',', '"'} {
      OneChar(c);
    }
  }

  lemma OneChar(c: char)
    ensures IsLocalPartChar(c) <==>
      '!' <= c <= '~' && c !in {'(', ')', '<', '>', '[', ']', ':', ';', '@', '\\', ',', '"'}
  {}

  /** A mailbox subtree: one mailbox, all mailboxes at one host, or all in a domain. */
  datatype MailboxSubtree = OneMailbox(localPart: string, host: string) | Host(host: string) | Domain(dotted: string)

  predicate WellWritten(m: MailboxSubtree) {
    match m
    case OneMailbox(l, h) => LocalChars(l) && DomainChars(h)
    case Host(h) => DomainChars(h) && h[0] != '.'
    case Domain(d) => DomainChars(d) && d[0] == '.'
  }

  function Written(m: MailboxSubtree): string {
    match m
    case OneMailbox(l, h) => l + "@" + h
    case Host(h) => h
    case Domain(d) => d
  }

  /** Whether a subtree holds the mailbox `p@q`. Hosts and domains never depend on case, a local part does
      unless `ignoreCase` is set. */
  predicate HoldsMailbox(m: MailboxSubtree, p: string, q: string, ignoreCase: bool) {
    match m
    case OneMailbox(l, h) => SameLetters(q, h) && (p == l || (ignoreCase && SameLetters(p, l)))
    case Host(h) => SameLetters(q, h)
    case Domain(d) => |d| <= |q| && SameLetters(q[|q| - |d|..], d)
  }

  /** The matcher decides what a well-written subtree holds. */
  lemma MailboxMatchMeans(m: MailboxSubtree, p: string, q: string, matchType: Rfc822NameMatchType, ignoreCase: bool)
    requires WellWritten(m)
    ensures Rfc822NameMatches(p, q, Written(m), matchType, ignoreCase) <==> HoldsMailbox(m, p, q, ignoreCase)
  {
    match m
    case OneMailbox(l, h) =>
      CharsMean(l);
      CharsMean(h);
      MailboxParts(l, h);
      EqualNoCaseMeans(p, l);
      EqualNoCaseMeans(q, h);
    case Host(h) =>
      CharsMean(h);
      SplitNone(h, '@');
      EqualNoCaseMeans(q, h);
    case Domain(d) =>
      CharsMean(d);
      SplitNone(d, '@');
      EndsWithNoCaseMeans(q, d);
  }

  /** A subtree can be read exactly when it is well written. */
  lemma UnreadableMeans(c: string)
    ensures UnreadableMailbox(c) <==> !exists m :: WellWritten(m) && Written(m) == c
  {
    forall m | WellWritten(m) && Written(m) == c ensures !UnreadableMailbox(c) {
      WrittenIsReadable(m);
    }
    if !UnreadableMailbox(c) {
      var m := Reading(c);
    }
  }

  lemma WrittenIsReadable(m: MailboxSubtree)
    requires WellWritten(m)
    ensures !UnreadableMailbox(Written(m))
  {
    match m
    case OneMailbox(l, h) =>
      CharsMean(l);
      CharsMean(h);
      MailboxParts(l, h);
    case Host(h) =>
      CharsMean(h);
      SplitNone(h, '@');
    case Domain(d) =>
      CharsMean(d);
      SplitNone(d, '@');
  }

  lemma Reading(c: string) returns (m: MailboxSubtree)
    requires !UnreadableMailbox(c)
    ensures WellWritten(m) && Written(m) == c
  {
    var parts := SplitString(c, '@');
    JoinSplit(c, '@');
    CharsMean(parts[|parts| - 1]);
    if |parts| == 2 {
      CharsMean(parts[0]);
      assert parts[1..] == [parts[1]];
      m := OneMailbox(parts[0], parts[1]);
    } else {
      m := if c[0] == '.' then Domain(c) else Host(c);
    }
  }

  /** A mailbox is permitted exactly when it is an allowed local part and an allowed domain, every
      excluded subtree can be read and does not hold it, and, if mailboxes are constrained, some permitted
      subtree can be read and holds it, with regard to case. */
  ghost predicate MailboxAllowed(name: string, excluded: seq<string>, permitted: seq<string>, constrained: bool,
                                 ignoreCase: bool) {
    exists p, q ::
      && name == p + "@" + q && LocalChars(p) && DomainChars(q)
      && (forall i :: 0 <= i < |excluded| ==> OutsideMailboxSubtree(excluded[i], p, q, ignoreCase))
      && (constrained ==> exists i :: 0 <= i < |permitted| && InsideMailboxSubtree(permitted[i], p, q))
  }

  ghost predicate OutsideMailboxSubtree(c: string, p: string, q: string, ignoreCase: bool) {
    exists m :: WellWritten(m) && Written(m) == c && !HoldsMailbox(m, p, q, ignoreCase)
  }

  ghost predicate InsideMailboxSubtree(c: string, p: string, q: string) {
    exists m :: WellWritten(m) && Written(m) == c && HoldsMailbox(m, p, q, false)
  }

  lemma OutsideMeans(c: string, p: string, q: string, ignoreCase: bool)
    ensures OutsideMailboxSubtree(c, p, q, ignoreCase) <==> !Rfc822NameMatches(p, q, c, Excluded, ignoreCase)
  {
    UnreadableMeans(c);
    forall m | WellWritten(m) && Written(m) == c
      ensures Rfc822NameMatches(p, q, c, Excluded, ignoreCase) <==> HoldsMailbox(m, p, q, ignoreCase)
    {
      MailboxMatchMeans(m, p, q, Excluded, ignoreCase);
    }
    if UnreadableMailbox(c) { UnreadableMatches(c, p, q, ignoreCase); }
  }

  lemma InsideMeans(c: string, p: string, q: string)
    ensures InsideMailboxSubtree(c, p, q) <==> Rfc822NameMatches(p, q, c, Permitted, false)
  {
    UnreadableMeans(c);
    forall m | WellWritten(m) && Written(m) == c
      ensures Rfc822NameMatches(p, q, c, Permitted, false) <==> HoldsMailbox(m, p, q, false)
    {
      MailboxMatchMeans(m, p, q, Permitted, false);
    }
    if UnreadableMailbox(c) { UnreadableMatches(c, p, q, false); }
  }

  lemma UnreadableMatches(c: string, p: string, q: string, ignoreCase: bool)
    requires UnreadableMailbox(c)
    ensures Rfc822NameMatches(p, q, c, Excluded, ignoreCase) && !Rfc822NameMatches(p, q, c, Permitted, ignoreCase)
  {}

  lemma MailboxAllowedExactly(name: string, excluded: seq<string>, permitted: seq<string>, constrained: bool,
                              ignoreCase: bool)
    ensures PermittedRfc822Name(name, excluded, permitted, constrained, ignoreCase) <==>
      MailboxAllowed(name, excluded, permitted, constrained, ignoreCase)
  {
    var parts := SplitString(name, '@');
    if |parts| == 2 && PermittedRfc822Name(name, excluded, permitted, constrained, ignoreCase) {
      JoinSplit(name, '@');
      assert parts[1..] == [parts[1]];
      PartsAllowed(parts[0], parts[1], excluded, permitted, constrained, ignoreCase);
      assert name == parts[0] + "@" + parts[1];
    }
    if MailboxAllowed(name, excluded, permitted, constrained, ignoreCase) {
      var p, q :|
        && name == p + "@" + q && LocalChars(p) && DomainChars(q)
        && (forall i :: 0 <= i < |excluded| ==> OutsideMailboxSubtree(excluded[i], p, q, ignoreCase))
        && (constrained ==> exists i :: 0 <= i < |permitted| && InsideMailboxSubtree(permitted[i], p, q));
      PartsAllowed(p, q, excluded, permitted, constrained, ignoreCase);
    }
  }

  lemma PartsAllowed(p: string, q: string, excluded: seq<string>, permitted: seq<string>, constrained: bool,
                     ignoreCase: bool)
    ensures LocalChars(p) && DomainChars(q) ==>
      (PermittedRfc822Name(p + "@" + q, excluded, permitted, constrained, ignoreCase) <==>
        && (forall i :: 0 <= i < |excluded| ==> OutsideMailboxSubtree(excluded[i], p, q, ignoreCase))
        && (constrained ==> exists i :: 0 <= i < |permitted| && InsideMailboxSubtree(permitted[i], p, q)))
    ensures IsAllowedRfc822LocalPart(p) <==> LocalChars(p)
    ensures IsAllowedRfc822Domain(q) <==> DomainChars(q)
  {
    CharsMean(p);
    CharsMean(q);
    if LocalChars(p) && DomainChars(q) {
      MailboxParts(p, q);
      forall c: string
        ensures OutsideMailboxSubtree(c, p, q, ignoreCase) <==> !Rfc822NameMatches(p, q, c, Excluded, ignoreCase)
      {
        OutsideMeans(c, p, q, ignoreCase);
      }
      forall c: string ensures InsideMailboxSubtree(c, p, q) <==> Rfc822NameMatches(p, q, c, Permitted, false) {
        InsideMeans(c, p, q);
      }
    }
  }

  // ----- a host name

  /** A name that is no wildcard is permitted exactly when its labels lie in no excluded subtree and, if
      DNS names are constrained, in some permitted one. */
  lemma HostAllowedByLabels(name: string, excluded: seq<string>, permitted: seq<string>, constrained: bool)
    requires !(|name| > 2 && name[0] == '*' && name[1] == '.')
    ensures PermittedDNSName(name, excluded, permitted, constrained) <==>
      && (forall i :: 0 <= i < |excluded| ==> !InSubtree(Labels(name), excluded[i]))
      && (constrained ==> exists i :: 0 <= i < |permitted| && InSubtree(Labels(name), permitted[i]))
  {
    forall c: string
      ensures DNSNameMatches(name, c, FullMatch) <==> InSubtree(Labels(name), c)
      ensures DNSNameMatches(name, c, PartialMatch) <==> DNSNameMatches(name, c, FullMatch)
    {
      FullMatchIsLabelSuffix(name, c);
      PartialVersusFull(name, c);
    }
  }

  // ----- a certificate

  ghost predicate MailboxesAllowed(names: seq<string>, c: Constraints, ignoreCase: bool) {
    Rfc822Name in c.types ==>
      forall i :: 0 <= i < |names| ==>
        MailboxAllowed(names[i], c.excluded.rfc822Names, c.permitted.rfc822Names, Rfc822Name in c.permitted.present,
                       ignoreCase)
  }

  /** Partial matches exclude, full matches permit. */
  predicate DnsAllowed(n: string, c: Constraints) {
    && (forall e :: e in c.excluded.dnsNames ==> !DNSNameMatches(n, e, PartialMatch))
    && (DnsName in c.permitted.present ==> exists p :: p in c.permitted.dnsNames && DNSNameMatches(n, p, FullMatch))
  }

  predicate IpAllowed(n: Octets, c: Constraints) {
    && (forall e :: e in c.excluded.ipAddressRanges ==> !Matches(n, e.0, e.1))
    && (IpAddress in c.permitted.present ==> exists p :: p in c.permitted.ipAddressRanges && Matches(n, p.0, p.1))
  }

  /** No excluded subtree holds the RDN sequence, and some permitted one does if any is given. */
  predicate DirectoryAllowed(name: Octets, c: Constraints, ops: NameOps) {
    && (forall e :: e in c.excluded.directoryNames ==> !ops.inSubtree(name, e))
    && (DirectoryName in c.permitted.present ==> exists p :: p in c.permitted.directoryNames && ops.inSubtree(name, p))
  }

  /** A certificate with a subjectAltName passes exactly when the counts multiply to at most 2^20, no
      name is of a type that is constrained but cannot be checked, and every name of the four types that
      can be is outside all excluded and inside some permitted subtrees; the local parts of mailboxes with
      regard to case, wildcard names by the partial test against excluded subtrees; and the subject too, if
      it is not empty. */
  lemma AcceptedWithSanExactly(c: Constraints, subject: Octets, san: Names, ops: NameOps)
    ensures Verdict(c, subject, Some(san), ops) == [] <==>
      && (|c.excluded.rfc822Names| + |c.permitted.rfc822Names| + |c.excluded.dnsNames| + |c.permitted.dnsNames|
          + |c.excluded.directoryNames| + |c.permitted.directoryNames|
          + |c.excluded.ipAddressRanges| + |c.permitted.ipAddressRanges|)
         * (|san.rfc822Names| + |san.dnsNames| + |san.directoryNames| + |san.ipAddresses|) <= 1048576
      && (forall t :: t in c.types && t in san.present ==>
          t == Rfc822Name || t == DnsName || t == DirectoryName || t == IpAddress)
      && MailboxesAllowed(san.rfc822Names, c, false)
      && (forall n :: n in san.dnsNames ==> DnsAllowed(n, c))
      && (forall n :: n in san.directoryNames ==> DirectoryAllowed(n, c, ops))
      && (forall n :: n in san.ipAddresses ==> IpAllowed(n, c))
      && (subject != [] ==> DirectoryAllowed(subject, c, ops))
  {
    MailboxListMeans(san.rfc822Names, c, false);
    DnsListMeans(san.dnsNames, c);
    DirectoryListMeans(san.directoryNames, c, ops);
    DirectoryListMeans([subject], c, ops);
    IpListMeans(san.ipAddresses, c);
    SupportedTypes(c.types * san.present);
    assert forall t :: t in c.types && t in san.present <==> t in c.types * san.present;
    assert [subject][0] == subject;
  }

  /** Without a subjectAltName, the e-mail addresses of the subject are checked in its stead, without
      regard to case against excluded subtrees, and the subject always. */
  lemma AcceptedWithoutSanExactly(c: Constraints, subject: Octets, ops: NameOps)
    ensures Verdict(c, subject, None, ops) == [] <==>
      && (|c.excluded.directoryNames| + |c.permitted.directoryNames|) * |subject| <= 1048576
      && (Rfc822Name in c.types ==>
            ops.emailAddresses(subject).Some? && MailboxesAllowed(ops.emailAddresses(subject).value, c, true))
      && DirectoryAllowed(subject, c, ops)
  {
    if ops.emailAddresses(subject).Some? {
      MailboxListMeans(ops.emailAddresses(subject).value, c, true);
    }
    DirectoryListMeans([subject], c, ops);
    assert [subject][0] == subject;
  }

  lemma SupportedTypes(types: set<NameType>)
    ensures types <= SUPPORTED_NAME_TYPES <==>
      forall t :: t in types ==> t == Rfc822Name || t == DnsName || t == DirectoryName || t == IpAddress
  {}

  lemma MailboxListMeans(names: seq<string>, c: Constraints, ignoreCase: bool)
    ensures (forall i :: 0 <= i < |names| ==> MailboxPermitted(c, names[i], ignoreCase)) <==>
      (forall i :: 0 <= i < |names| ==>
        MailboxAllowed(names[i], c.excluded.rfc822Names, c.permitted.rfc822Names, Rfc822Name in c.permitted.present,
                       ignoreCase))
  {
    forall i | 0 <= i < |names|
      ensures MailboxPermitted(c, names[i], ignoreCase) <==>
        MailboxAllowed(names[i], c.excluded.rfc822Names, c.permitted.rfc822Names, Rfc822Name in c.permitted.present,
                       ignoreCase)
    {
      MailboxAllowedExactly(names[i], c.excluded.rfc822Names, c.permitted.rfc822Names,
                            Rfc822Name in c.permitted.present, ignoreCase);
    }
  }

  lemma DnsListMeans(names: seq<string>, c: Constraints)
    ensures (forall i :: 0 <= i < |names| ==> DnsPermitted(c, names[i])) <==>
      forall n :: n in names ==> DnsAllowed(n, c)
  {
    forall n: string
      ensures DnsPermitted(c, n) <==> DnsAllowed(n, c)
    {}
  }

  lemma DirectoryListMeans(names: seq<Octets>, c: Constraints, ops: NameOps)
    ensures (forall i :: 0 <= i < |names| ==> DirectoryPermitted(c, names[i], ops)) <==>
      forall n :: n in names ==> DirectoryAllowed(n, c, ops)
  {
    forall n: Octets
      ensures DirectoryPermitted(c, n, ops) <==> DirectoryAllowed(n, c, ops)
    {}
  }

  lemma IpListMeans(names: seq<Octets>, c: Constraints)
    ensures (forall i :: 0 <= i < |names| ==> IpPermitted(c, names[i])) <==>
      forall n :: n in names ==> IpAllowed(n, c)
  {
    forall n: Octets
      ensures IpPermitted(c, n) <==> IpAllowed(n, c)
    {}
  }
}
