/** Printing distinguished names (`parse_name.cc`; RFC 2253, section 2.4). */
module NamePrinter {
  import opened Input
  import opened Options

  datatype Tag = T61 | Ia5 | Printable | Utf8 | Universal | Bmp | OtherTag

  datatype Attribute = Attribute(typeOid: Bytes, tag: Tag, value: Bytes)

  /** Conversions whose source is not part of this model. `oidText` is empty for a malformed OID. */
  datatype Decoders = Decoders(oidText: Bytes -> string, universal: Bytes -> Option<Bytes>, bmp: Bytes -> Option<Bytes>)

  // ----- what is printed of an attribute

  /** A value is shown as text, or as the hex digits of its encoding. */
  datatype Value = Text(text: Bytes) | Hex(encoding: Bytes)

  datatype Part = Part(typeName: string, value: Value)

  const COMMON_NAME: Bytes := [0x55, 0x04, 0x03]
  const SURNAME: Bytes := [0x55, 0x04, 0x04]
  const COUNTRY_NAME: Bytes := [0x55, 0x04, 0x06]
  const LOCALITY_NAME: Bytes := [0x55, 0x04, 0x07]
  const STATE_OR_PROVINCE_NAME: Bytes := [0x55, 0x04, 0x08]
  const ORGANIZATION_NAME: Bytes := [0x55, 0x04, 0x0a]
  const ORGANIZATION_UNIT_NAME: Bytes := [0x55, 0x04, 0x0b]
  const GIVEN_NAME: Bytes := [0x55, 0x04, 0x2a]
  const EMAIL_ADDRESS: Bytes := [0x2A, 0x86, 0x48, 0x86, 0xF7, 0x0D, 0x01, 0x09, 0x01]

  function ShortName(typeOid: Bytes): (name: Option<string>)
    ensures name.Some? ==> name.value != ""
  {
    if typeOid == COMMON_NAME then Some("CN")
    else if typeOid == SURNAME then Some("SN")
    else if typeOid == COUNTRY_NAME then Some("C")
    else if typeOid == LOCALITY_NAME then Some("L")
    else if typeOid == STATE_OR_PROVINCE_NAME then Some("ST")
    else if typeOid == ORGANIZATION_NAME then Some("O")
    else if typeOid == ORGANIZATION_UNIT_NAME then Some("OU")
    else if typeOid == GIVEN_NAME then Some("givenName")
    else if typeOid == EMAIL_ADDRESS then Some("emailAddress")
    else None
  }

  function ValueAsStringUnsafe(a: Attribute, d: Decoders): Option<Bytes> {
    match a.tag
    case Universal => d.universal(a.value)
    case Bmp => d.bmp(a.value)
    case OtherTag => None
    case _ => Some(a.value)
  }

  predicate Unprintable(c: u8) {
    c < 32 || c > 126
  }

  predicate AnyUnprintable(text: Bytes) {
    exists i :: 0 <= i < |text| && Unprintable(text[i])
  }

  /** The part an attribute is printed as, if it can be printed. */
  function PartOf(a: Attribute, d: Decoders): Option<Part> {
    if ShortName(a.typeOid).None? then
      if d.oidText(a.typeOid) == "" then None else Some(Part(d.oidText(a.typeOid), Hex(a.value)))
    else match ValueAsStringUnsafe(a, d)
      case None => None
      case Some(text) =>
        Some(Part(ShortName(a.typeOid).value, if a.tag == T61
            && AnyUnprintable(text) then Hex(a.value) else Text(text)))
  }

  // ----- its printed form

  function HexDigit(n: nat): char
    requires n < 16
  {
    if n < 10 then ('0' as int + n) as char else ('A' as int + n - 10) as char
  }

  function HexEncode(b: Bytes): string {
    if b == [] then "" else [HexDigit(b[0] / 16), HexDigit(b[0] % 16)] + HexEncode(b[1..])
  }

  predicate Special(c: u8) {
    c as char in {',', '+', '"', '\\', '<', '>', ';'}
  }

  /** How the byte at position `i` is written. */
  function Escape(text: Bytes, i: nat): string
    requires i < |text|
  {
    var c := text[i];
    if i == 0 && c as char == '#' then "\\#"
    else if i == 0 && c as char == ' ' then "\\ "
    else if i == |text| - 1 && c as char == ' ' then "\\ "
    else if Special(c) then "\\" + [c as char]
    else if Unprintable(c) then "\\" + HexEncode([c])
    else [c as char]
  }

  function Escaped(text: Bytes, n: nat): string
    requires n <= |text|
  {
    if n == 0 then "" else Escaped(text, n - 1) + Escape(text, n - 1)
  }

  function ValueText(v: Value): string {
    match v
    case Text(text) => Escaped(text, |text|)
    case Hex(encoding) => "#" + HexEncode(encoding)
  }

  function PartText(p: Part): string {
    p.typeName + "=" + ValueText(p.value)
  }

  method AsRFC2253String(a: Attribute, d: Decoders) returns (r: Option<string>)
    ensures r == (match PartOf(a, d) case None => None case Some(p) => Some(PartText(p)))
  {
    var typeString, valueString := "", "";
    if ShortName(a.typeOid).Some? {
      typeString := ShortName(a.typeOid).value;
    } else {
      typeString := d.oidText(a.typeOid);
      if typeString == "" {
        return None;
      }
      valueString := "#" + HexEncode(a.value);
    }
    if valueString == "" {
      var unescaped := ValueAsStringUnsafe(a, d);
      if unescaped.None? {
        return None;
      }
      var nonprintable;
      valueString, nonprintable := EscapeAll(unescaped.value);
      if nonprintable && a.tag == T61 {
        valueString := "#" + HexEncode(a.value);
      }
    }
    return Some(typeString + "=" + valueString);
  }

  lemma EscapedNext(text: Bytes, i: nat)
    requires i < |text|
    ensures Escaped(text, i + 1) == Escaped(text, i) + Escape(text, i)
  {}

  method EscapeAll(text: Bytes) returns (valueString: string, nonprintable: bool)
    ensures valueString == Escaped(text, |text|)
    ensures nonprintable <==> AnyUnprintable(text)
  {
    nonprintable := false;
    valueString := "";
    for i := 0 to |text|
      invariant nonprintable <==> exists j :: 0 <= j < i && Unprintable(text[j])
      invariant valueString == Escaped(text, i)
    {
      var c := text[i];
      EscapedNext(text, i);
      if i == 0 && c as char == '#' {
        valueString := valueString + "\\#";
      } else if i == 0 && c as char == ' ' {
        valueString := valueString + "\\ ";
      } else if i == |text| - 1 && c as char == ' ' {
        valueString := valueString + "\\ ";
      } else if Special(c) {
        valueString := valueString + ("\\" + [c as char]);
      } else if Unprintable(c) {
        nonprintable := true;
        valueString := valueString + ("\\" + HexEncode([c]));
      } else {
        valueString := valueString + [c as char];
      }
    }
  }

  // ----- the printed form of a name

  type Name = seq<seq<Attribute>>

  predicate ShowableRdn(rdn: seq<Attribute>, d: Decoders) {
    forall j :: 0 <= j < |rdn| ==> PartOf(rdn[j], d).Some?
  }

  predicate Showable(name: Name, d: Decoders) {
    forall i :: 0 <= i < |name| ==> ShowableRdn(name[i], d)
  }

  function RdnParts(rdn: seq<Attribute>, d: Decoders): seq<Part>
    requires ShowableRdn(rdn, d)
  {
    seq(|rdn|, j requires 0 <= j < |rdn| => PartOf(rdn[j], d).value)
  }

  /** The parts of each RDN in its order, the last RDN first. */
  function NameParts(name: Name, d: Decoders): seq<seq<Part>>
    requires Showable(name, d)
  {
    seq(|name|, i requires 0 <= i < |name| => RdnParts(name[|name| - 1 - i], d))
  }

  /** Append `s`, after a separator unless nothing is there yet. */
  function Add(text: string, sep: char, s: string): string {
    (if text == "" then "" else text + [sep]) + s
  }

  function Listed(pieces: seq<string>, sep: char): string {
    if pieces == [] then "" else Add(Listed(pieces[..|pieces| - 1], sep), sep, pieces[|pieces| - 1])
  }

  function Each<T>(f: T -> string, s: seq<T>): seq<string> {
    seq(|s|, i requires 0 <= i < |s| => f(s[i]))
  }

  function PartTexts(parts: seq<Part>): seq<string> {
    Each(PartText, parts)
  }

  function RdnText(parts: seq<Part>): string {
    Listed(PartTexts(parts), '+')
  }

  function RdnTexts(rdns: seq<seq<Part>>): seq<string> {
    Each(RdnText, rdns)
  }

  function NameText(rdns: seq<seq<Part>>): string {
    Listed(RdnTexts(rdns), ',')
  }

  lemma EachInFront<T>(f: T -> string, x: T, s: seq<T>)
    ensures Each(f, [x] + s) == [f(x)] + Each(f, s)
  {
    forall i | 0 < i <= |s|
      ensures Each(f, [x] + s)[i] == Each(f, s)[i - 1]
    {
      assert ([x] + s)[i] == s[i - 1];
    }
  }

  lemma EachFront<T>(f: T -> string, s: seq<T>, n: nat)
    requires n <= |s|
    ensures Each(f, s)[..n] == Each(f, s[..n])
  {}

  lemma OneMoreRdn(name: Name, k: nat, d: Decoders)
    requires k < |name| && Showable(name[k + 1..], d) && ShowableRdn(name[k], d)
    ensures Showable(name[k..], d)
    ensures NameText(NameParts(name[k..], d)) ==
      Add(NameText(NameParts(name[k + 1..], d)), ',', RdnText(RdnParts(name[k], d)))
  {
    var n := name[k..];
    assert n == [name[k]] + name[k + 1..];
    EachFront(RdnText, NameParts(n, d), |n| - 1);
    assert NameParts(n, d)[..|n| - 1] == NameParts(name[k + 1..], d);
  }

  method ConvertToRFC2253(name: Name, d: Decoders) returns (r: Option<string>)
    ensures r.Some? <==> Showable(name, d)
    ensures r.Some? ==> r.value == NameText(NameParts(name, d))
  {
    var text := "";
    var size := |name|;
    for i := 0 to size
      invariant Showable(name[size - i..], d) && text == NameText(NameParts(name[size - i..], d))
    {
      var rdn := name[size - i - 1];
      var rdnText := RdnString(rdn, d);
      if rdnText.None? {
        return None;
      }
      OneMoreRdn(name, size - i - 1, d);
      if text != "" {
        text := text + ",";
      }
      text := text + rdnText.value;
    }
    assert name[0..] == name;
    return Some(text);
  }

  /** The inner loop: one RDN. */
  method RdnString(rdn: seq<Attribute>, d: Decoders) returns (r: Option<string>)
    ensures r.Some? <==> ShowableRdn(rdn, d)
    ensures r.Some? ==> r.value == RdnText(RdnParts(rdn, d))
  {
    var text := "";
    for j := 0 to |rdn|
      invariant ShowableRdn(rdn[..j], d) && text == RdnText(RdnParts(rdn[..j], d))
    {
      if text != "" {
        text := text + "+";
      }
      var atv := AsRFC2253String(rdn[j], d);
      if atv.None? {
        return None;
      }
      text := text + atv.value;
      OneMorePart(rdn, j, d);
    }
    assert rdn[..|rdn|] == rdn;
    return Some(text);
  }

  lemma OneMorePart(rdn: seq<Attribute>, j: nat, d: Decoders)
    requires j < |rdn| && ShowableRdn(rdn[..j], d) && PartOf(rdn[j], d).Some?
    ensures ShowableRdn(rdn[..j + 1], d)
    ensures RdnText(RdnParts(rdn[..j + 1], d)) ==
      Add(RdnText(RdnParts(rdn[..j], d)), '+', PartText(PartOf(rdn[j], d).value))
  {
    var n := rdn[..j + 1];
    assert n == rdn[..j] + [rdn[j]];
    EachFront(PartText, RdnParts(n, d), j);
    assert RdnParts(n, d)[..j] == RdnParts(rdn[..j], d);
  }
}
