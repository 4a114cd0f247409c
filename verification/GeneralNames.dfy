/** The GeneralNames structure of RFC 5280, section 4.2.1.6, and the parser that fills it one name at
    a time (`general_names.cc`). A name arrives already framed as a tag and a value. */
module GeneralNames {
  import opened IpUtil
  import opened Octets
  import opened Options

  datatype NameType =
    | OtherName | Rfc822Name | DnsName | X400Address | DirectoryName
    | EdiPartyName | UniformResourceIdentifier | IpAddress | RegisteredId

  /** The bitfield of present name types is a set of name types. */
  datatype Names = Names(
    otherNames: seq<Octets>, rfc822Names: seq<string>, dnsNames: seq<string>, x400Addresses: seq<Octets>,
    directoryNames: seq<Octets>, ediPartyNames: seq<Octets>, uris: seq<string>, ipAddresses: seq<Octets>,
    ipAddressRanges: seq<(Octets, Octets)>, registeredIds: seq<Octets>, present: set<NameType>)

  const NO_NAMES := Names([], [], [], [], [], [], [], [], [], [], {})

  datatype IpAddressMode = AddressOnly | AddressAndNetmask

  /** `Unreadable` is an input with no tag and value; `more` says that bytes follow the value. */
  datatype Tlv = Unreadable | Tlv(contextSpecific: bool, constructed: bool, number: nat, value: Octets, more: bool)

  datatype NameError = RFC822NameNotAscii | DnsNameNotAscii | URINotAscii | FailedParsingIp | UnknownGeneralNameType

  function Text(b: Octets): (s: string)
    ensures |s| == |b|
  {
    seq(|b|, i requires 0 <= i < |b| => b[i] as char)
  }

  predicate IsAscii(b: Octets) {
    forall i :: 0 <= i < |b| ==> b[i] < 0x80
  }

  predicate ValidAddress(a: Octets) {
    |a| == IPV4_ADDRESS_SIZE || |a| == IPV6_ADDRESS_SIZE
  }

  /** A stored range: an address and a contiguous netmask of one size. */
  ghost predicate ValidRange(range: (Octets, Octets)) {
    && |range.0| == |range.1|
    && ValidAddress(range.1)
    && exists k: nat :: PrefixMask(range.1, k)
  }

  /** How many names of a type are stored. */
  function Count(n: Names, t: NameType): nat {
    match t
    case OtherName => |n.otherNames|
    case Rfc822Name => |n.rfc822Names|
    case DnsName => |n.dnsNames|
    case X400Address => |n.x400Addresses|
    case DirectoryName => |n.directoryNames|
    case EdiPartyName => |n.ediPartyNames|
    case UniformResourceIdentifier => |n.uris|
    case IpAddress => |n.ipAddresses| + |n.ipAddressRanges|
    case RegisteredId => |n.registeredIds|
  }

  /** The bitfield agrees with the lists. */
  ghost predicate BitsAgree(n: Names) {
    forall t: NameType :: t in n.present <==> Count(n, t) > 0
  }

  /** The bitfield agrees with the lists, and every stored address and range is well formed. */
  ghost predicate Valid(n: Names) {
    && BitsAgree(n)
    && (forall a :: a in n.ipAddresses ==> ValidAddress(a))
    && (forall r :: r in n.ipAddressRanges ==> ValidRange(r))
  }

  datatype Entry =
    | Other(der: Octets) | Rfc822(text: string) | Dns(text: string) | X400(der: Octets) | Directory(der: Octets)
    | EdiParty(der: Octets) | Uri(text: string) | Address(ip: Octets) | Range(ip: Octets, mask: Octets)
    | Registered(der: Octets)

  function TypeOf(e: Entry): NameType {
    match e
    case Other(_) => OtherName
    case Rfc822(_) => Rfc822Name
    case Dns(_) => DnsName
    case X400(_) => X400Address
    case Directory(_) => DirectoryName
    case EdiParty(_) => EdiPartyName
    case Uri(_) => UniformResourceIdentifier
    case Address(_) => IpAddress
    case Range(_, _) => IpAddress
    case Registered(_) => RegisteredId
  }

  /** Pushes one name onto its list and sets its bit. */
  function Push(n: Names, e: Entry): Names {
    var m := n.(present := n.present + {TypeOf(e)});
    match e
    case Other(v) => m.(otherNames := n.otherNames + [v])
    case Rfc822(t) => m.(rfc822Names := n.rfc822Names + [t])
    case Dns(t) => m.(dnsNames := n.dnsNames + [t])
    case X400(v) => m.(x400Addresses := n.x400Addresses + [v])
    case Directory(v) => m.(directoryNames := n.directoryNames + [v])
    case EdiParty(v) => m.(ediPartyNames := n.ediPartyNames + [v])
    case Uri(t) => m.(uris := n.uris + [t])
    case Address(ip) => m.(ipAddresses := n.ipAddresses + [ip])
    case Range(ip, mask) => m.(ipAddressRanges := n.ipAddressRanges + [(ip, mask)])
    case Registered(v) => m.(registeredIds := n.registeredIds + [v])
  }

  /** Which names a tag and a value spell, and when they are acceptable. */
  ghost predicate Spells(input: Tlv, mode: IpAddressMode, sequenceValue: Octets -> Option<Octets>, e: Entry) {
    input.Tlv? && input.contextSpecific &&
    match e
    case Other(v) => input.constructed && input.number == 0 && v == input.value
    case Rfc822(t) => !input.constructed && input.number == 1 && IsAscii(input.value) && t == Text(input.value)
    case Dns(t) => !input.constructed && input.number == 2 && IsAscii(input.value) && t == Text(input.value)
    case X400(v) => input.constructed && input.number == 3 && v == input.value
    case Directory(v) => input.constructed && input.number == 4 && sequenceValue(input.value) == Some(v) && !input.more
    case EdiParty(v) => input.constructed && input.number == 5 && v == input.value
    case Uri(t) => !input.constructed && input.number == 6 && IsAscii(input.value) && t == Text(input.value)
    case Address(ip) => !input.constructed && input.number == 7 && mode == AddressOnly && ip == input.value
        && ValidAddress(ip)
    case Range(ip, mask) => !input.constructed && input.number == 7 && mode == AddressAndNetmask
                            && ip + mask == input.value && ValidRange((ip, mask))
    case Registered(v) => !input.constructed && input.number == 8 && v == input.value
  }

  /** An input spells at most one name. */
  lemma SpellsOnce(input: Tlv, mode: IpAddressMode, sequenceValue: Octets -> Option<Octets>, e: Entry, f: Entry)
    requires Spells(input, mode, sequenceValue, e) && Spells(input, mode, sequenceValue, f)
    ensures e == f
  {
    if e.Range? {
      assert |e.ip + e.mask| == |f.ip + f.mask| == 2 * |e.ip|;
      assert e.ip == input.value[..|e.ip|] == f.ip && e.mask == input.value[|e.ip|..] == f.mask;
    }
  }

  /** The one name an input spells, if it spells any. */
  ghost function Spelled(input: Tlv, mode: IpAddressMode, sequenceValue: Octets -> Option<Octets>): Option<Entry> {
    if exists e :: Spells(input, mode, sequenceValue, e) then
      var e :| Spells(input, mode, sequenceValue, e);
      Some(e)
    else None
  }

  lemma SpelledIs(input: Tlv, mode: IpAddressMode, sequenceValue: Octets -> Option<Octets>, e: Entry)
    requires Spells(input, mode, sequenceValue, e)
    ensures Spelled(input, mode, sequenceValue) == Some(e)
  {
    var f := Spelled(input, mode, sequenceValue);
    SpellsOnce(input, mode, sequenceValue, e, f.value);
  }

  /** Pushing an acceptable name keeps the structure well formed. */
  lemma PushKeepsValid(n: Names, e: Entry)
    requires Valid(n) && (e.Address? ==> ValidAddress(e.ip)) && (e.Range? ==> ValidRange((e.ip, e.mask)))
    ensures Valid(Push(n, e)) && Push(n, e).present == n.present + {TypeOf(e)}
  {
    PushKeepsLists(n, e);
    match e
    case Address(ip) => AppendedAddress(n.ipAddresses, ip);
    case Range(ip, mask) => AppendedRange(n.ipAddressRanges, (ip, mask));
    case _ =>
  }

  lemma PushKeepsLists(n: Names, e: Entry)
    requires BitsAgree(n)
    ensures BitsAgree(Push(n, e))
  {
    forall t: NameType ensures t in Push(n, e).present <==> Count(Push(n, e), t) > 0 {
      OneMore(n, e, t);
    }
  }

  lemma OneMore(n: Names, e: Entry, t: NameType)
    ensures Count(Push(n, e), t) == Count(n, t) + (if t == TypeOf(e) then 1 else 0)
  {}

  lemma AppendedAddress(s: seq<Octets>, a: Octets)
    requires ValidAddress(a) && forall b :: b in s ==> ValidAddress(b)
    ensures forall b :: b in s + [a] ==> ValidAddress(b)
  {}

  lemma AppendedRange(s: seq<(Octets, Octets)>, r: (Octets, Octets))
    requires ValidRange(r) && forall b :: b in s ==> ValidRange(b)
    ensures forall b :: b in s + [r] ==> ValidRange(b)
  {}

  /** Reads one name and pushes it; every other input is refused and changes nothing. `sequenceValue`
      is the DER reader that strips the SEQUENCE of a directoryName. */
  method ParseGeneralName(input: Tlv, mode: IpAddressMode, sequenceValue: Octets -> Option<Octets>, subtrees: Names)
    returns (ok: bool, out: Names, error: Option<NameError>)
    requires Valid(subtrees)
    ensures Valid(out)
    ensures ok <==> Spelled(input, mode, sequenceValue).Some?
    ensures ok ==> out == Push(subtrees, Spelled(input, mode, sequenceValue).value) && out.present != {}
    ensures !ok ==> out == subtrees
    ensures ok ==> error.None?
  {
    var entry;
    entry, error := Classify(input, mode, sequenceValue);
    if entry.None? {
      return false, subtrees, error;
    }
    SpelledIs(input, mode, sequenceValue, entry.value);
    PushKeepsValid(subtrees, entry.value);
    assert TypeOf(entry.value) in subtrees.present + {TypeOf(entry.value)};
    return true, Push(subtrees, entry.value), None;
  }

  method Classify(input: Tlv, mode: IpAddressMode, sequenceValue: Octets -> Option<Octets>)
    returns (entry: Option<Entry>, error: Option<NameError>)
    ensures entry.Some? ==> Spells(input, mode, sequenceValue, entry.value)
    ensures entry.None? ==> forall e :: !Spells(input, mode, sequenceValue, e)
  {
    entry, error := None, None;
    if input.Unreadable? {
      return;
    }
    var value := input.value;
    if input.contextSpecific && input.constructed && input.number == 0 {
      entry := Some(Other(value));
    } else if input.contextSpecific && !input.constructed && input.number == 1 {
      if IsAscii(value) { entry := Some(Rfc822(Text(value))); } else { error := Some(RFC822NameNotAscii); }
    } else if input.contextSpecific && !input.constructed && input.number == 2 {
      if IsAscii(value) { entry := Some(Dns(Text(value))); } else { error := Some(DnsNameNotAscii); }
    } else if input.contextSpecific && input.constructed && input.number == 3 {
      entry := Some(X400(value));
    } else if input.contextSpecific && input.constructed && input.number == 4 {
      var name := sequenceValue(value);
      if name.Some? && !input.more { entry := Some(Directory(name.value)); }
    } else if input.contextSpecific && input.constructed && input.number == 5 {
      entry := Some(EdiParty(value));
    } else if input.contextSpecific && !input.constructed && input.number == 6 {
      if IsAscii(value) { entry := Some(Uri(Text(value))); } else { error := Some(URINotAscii); }
    } else if input.contextSpecific && !input.constructed && input.number == 7 {
      entry := ClassifyIp(value, mode);
      if entry.None? { error := Some(FailedParsingIp); }
    } else if input.contextSpecific && !input.constructed && input.number == 8 {
      entry := Some(Registered(value));
    } else {
      error := Some(UnknownGeneralNameType);
    }
  }

  method ClassifyIp(value: Octets, mode: IpAddressMode) returns (entry: Option<Entry>)
    ensures mode == AddressOnly ==> entry == if ValidAddress(value) then Some(Address(value)) else None
    ensures mode == AddressAndNetmask && entry.Some?
        ==> entry.value.Range? && entry.value.ip + entry.value.mask == value
            && ValidRange((entry.value.ip, entry.value.mask))
    ensures mode == AddressAndNetmask && entry.None? ==> forall ip, mask :: ip + mask == value ==>
      !ValidRange((ip, mask))
  {
    if mode == AddressOnly {
      return if |value| != IPV4_ADDRESS_SIZE && |value| != IPV6_ADDRESS_SIZE then None else Some(Address(value));
    }
    if |value| != IPV4_ADDRESS_SIZE * 2 && |value| != IPV6_ADDRESS_SIZE * 2 {
      return None;
    }
    var addr, mask := value[..|value| / 2], value[|value| / 2..];
    assert addr + mask == value;
    var validMask := IsValidNetmask(mask);
    if !validMask {
      forall a, m | a + m == value && |a| == |m| ensures m == mask {
        assert m == value[|a|..];
      }
      return None;
    }
    return Some(Range(addr, mask));
  }

  // ----- the other direction

  /** The framed name that RFC 5280, section 4.2.1.6, writes for an entry; `directory` is what holds the
      SEQUENCE of a directoryName. */
  function Framed(e: Entry, bytes: Octets): Tlv {
    match e
    case Other(v) => Tlv(true, true, 0, v, false)
    case Rfc822(_) => Tlv(true, false, 1, bytes, false)
    case Dns(_) => Tlv(true, false, 2, bytes, false)
    case X400(v) => Tlv(true, true, 3, v, false)
    case Directory(_) => Tlv(true, true, 4, bytes, false)
    case EdiParty(v) => Tlv(true, true, 5, v, false)
    case Uri(_) => Tlv(true, false, 6, bytes, false)
    case Address(ip) => Tlv(true, false, 7, ip, false)
    case Range(ip, mask) => Tlv(true, false, 7, ip + mask, false)
    case Registered(v) => Tlv(true, false, 8, v, false)
  }

  /** Which contents spell an entry: ASCII bytes for the three texts, the SEQUENCE for a directoryName, 4 or
      16 octets for an address, and twice as many for a range with a contiguous mask. */
  ghost predicate Contents(e: Entry, bytes: Octets, mode: IpAddressMode, sequenceValue: Octets -> Option<Octets>) {
    match e
    case Rfc822(t) => IsText(bytes, t)
    case Dns(t) => IsText(bytes, t)
    case Uri(t) => IsText(bytes, t)
    case Directory(v) => sequenceValue(bytes) == Some(v)
    case Address(ip) => mode == AddressOnly && (|ip| == 4 || |ip| == 16)
    case Range(ip, mask) =>
      && mode == AddressAndNetmask && |ip| == |mask| && (|mask| == 4 || |mask| == 16)
      && exists k: nat :: PrefixMask(mask, k)
    case _ => true
  }

  predicate IsText(bytes: Octets, t: string) {
    |bytes| == |t| && forall i :: 0 <= i < |t| ==> bytes[i] < 128 && t[i] as int == bytes[i] as int
  }

  /** Framing and reading undo each other: the framed name is read as the entry, exactly for contents that
      spell it. */
  lemma FramedIsRead(e: Entry, bytes: Octets, mode: IpAddressMode, sequenceValue: Octets -> Option<Octets>)
    ensures Spells(Framed(e, bytes), mode, sequenceValue, e) <==> Contents(e, bytes, mode, sequenceValue)
    ensures Contents(e, bytes, mode, sequenceValue) ==> Spelled(Framed(e, bytes), mode, sequenceValue) == Some(e)
  {
    TextMeans(bytes, if e.Rfc822? || e.Dns? || e.Uri? then e.text else "");
    if Contents(e, bytes, mode, sequenceValue) {
      SpelledIs(Framed(e, bytes), mode, sequenceValue, e);
    }
  }

  lemma TextMeans(bytes: Octets, t: string)
    ensures IsText(bytes, t) <==> IsAscii(bytes) && t == Text(bytes)
  {}

  /** A pushed name goes to the end of its list, and leaves the other lists alone. */
  lemma PushAppends(n: Names, e: Entry)
    ensures Push(n, e) == Names(
      if e.Other? then n.otherNames + [e.der] else n.otherNames,
      if e.Rfc822? then n.rfc822Names + [e.text] else n.rfc822Names,
      if e.Dns? then n.dnsNames + [e.text] else n.dnsNames,
      if e.X400? then n.x400Addresses + [e.der] else n.x400Addresses,
      if e.Directory? then n.directoryNames + [e.der] else n.directoryNames,
      if e.EdiParty? then n.ediPartyNames + [e.der] else n.ediPartyNames,
      if e.Uri? then n.uris + [e.text] else n.uris,
      if e.Address? then n.ipAddresses + [e.ip] else n.ipAddresses,
      if e.Range? then n.ipAddressRanges + [(e.ip, e.mask)] else n.ipAddressRanges,
      if e.Registered? then n.registeredIds + [e.der] else n.registeredIds,
      n.present + {TypeOf(e)})
  {}
}
