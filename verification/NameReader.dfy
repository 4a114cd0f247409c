/** A reader for printed names, and the proof that it undoes the printer (RFC 2253, sections 2.4 and 3):
    split at unescaped separators, split a part at its first equals sign, then decode the value. */
module NameReader {
  import opened AsciiText
  import opened Input
  import opened NamePrinter
  import opened ObjectIdentifiers
  import opened Options

  predicate IsHex(c: char) {
    '0' <= c <= '9' || 'A' <= c <= 'F'
  }

  function HexValue(c: char): nat
    requires IsHex(c)
    ensures HexValue(c) < 16
  {
    if c <= '9' then c as int - '0' as int else c as int - 'A' as int + 10
  }

  function Byte(high: char, low: char): u8
    requires IsHex(high) && IsHex(low)
  {
    16 * HexValue(high) + HexValue(low)
  }

  function Before(b: u8, rest: Option<Bytes>): Option<Bytes> {
    match rest
    case None => None
    case Some(bytes) => Some([b] + bytes)
  }

  function HexDecode(s: string): Option<Bytes> {
    if s == "" then Some([])
    else if |s| >= 2 && IsHex(s[0]) && IsHex(s[1]) then Before(Byte(s[0], s[1]), HexDecode(s[2..]))
    else None
  }

  /** A backslash stands before two hex digits, or before one character that is meant literally. */
  function Unescape(s: string): Option<Bytes> {
    if s == "" then Some([])
    else if s[0] != '\\' then
      if s[0] as int < 0x100 then Before(s[0] as int, Unescape(s[1..])) else None
    else if |s| >= 3 && IsHex(s[1]) && IsHex(s[2]) then Before(Byte(s[1], s[2]), Unescape(s[3..]))
    else if |s| >= 2 && s[1] as int < 0x100 then Before(s[1] as int, Unescape(s[2..]))
    else None
  }

  /** Position of the first separator that no backslash precedes. */
  function Cut(s: string, sep: char): (i: nat)
    ensures i <= |s|
  {
    CutFrom(s, sep, 0)
  }

  function CutFrom(s: string, sep: char, from: nat): (i: nat)
    requires from <= |s|
    ensures from <= i <= |s|
    decreases |s| - from
  {
    if from == |s| || s[from] == sep then from
    else if s[from] == '\\' && from + 2 <= |s| then CutFrom(s, sep, from + 2)
    else CutFrom(s, sep, from + 1)
  }

  function SplitUnescaped(s: string, sep: char): (pieces: seq<string>)
    ensures pieces != []
    decreases |s|
  {
    var i := Cut(s, sep);
    if i == |s| then [s] else [s[..i]] + SplitUnescaped(s[i + 1..], sep)
  }

  function ReadValue(s: string): Option<Value> {
    if s != "" && s[0] == '#' then
      match HexDecode(s[1..]) case None => None case Some(b) => Some(Hex(b))
    else
      match Unescape(s) case None => None case Some(b) => Some(Text(b))
  }

  function ReadPart(s: string): Option<Part> {
    var i := IndexOf(s, '=');
    if i == |s| then None
    else match ReadValue(s[i + 1..]) case None => None case Some(v) => Some(Part(s[..i], v))
  }

  function ReadParts(pieces: seq<string>): (r: Option<seq<Part>>)
    ensures r.Some? ==> |r.value| == |pieces|
  {
    if pieces == [] then Some([])
    else match ReadPart(pieces[0])
      case None => None
      case Some(p) => match ReadParts(pieces[1..]) case None => None case Some(ps) => Some([p] + ps)
  }

  /** An empty text is an empty RDN. */
  function ReadRdn(piece: string): Option<seq<Part>> {
    if piece == "" then Some([]) else ReadParts(SplitUnescaped(piece, '+'))
  }

  function ReadRdns(pieces: seq<string>): Option<seq<seq<Part>>> {
    if pieces == [] then Some([])
    else match ReadRdn(pieces[0])
      case None => None
      case Some(rdn) => match ReadRdns(pieces[1..]) case None => None case Some(rdns) => Some([rdn] + rdns)
  }

  function ReadName(s: string): Option<seq<seq<Part>>> {
    if s == "" then Some([]) else ReadRdns(SplitUnescaped(s, ','))
  }

  // ----- values

  lemma HexDigits(b: u8)
    ensures IsHex(HexDigit(b / 16)) && IsHex(HexDigit(b % 16))
    ensures Byte(HexDigit(b / 16), HexDigit(b % 16)) == b
  {
    HexOne(b / 16);
    HexOne(b % 16);
  }

  lemma HexOne(n: nat)
    requires n < 16
    ensures IsHex(HexDigit(n)) && HexValue(HexDigit(n)) == n
  {}

  lemma {:induction false} HexRoundTrip(b: Bytes)
    ensures HexDecode(HexEncode(b)) == Some(b)
  {
    if b != [] {
      HexDigits(b[0]);
      HexRoundTrip(b[1..]);
      var s := HexEncode(b);
      assert s[2..] == HexEncode(b[1..]) && s[0] == HexDigit(b[0] / 16) && s[1] == HexDigit(b[0] % 16);
      assert [b[0]] + b[1..] == b;
    }
  }

  lemma UnescapeOne(text: Bytes, i: nat, rest: string)
    requires i < |text|
    ensures Unescape(Escape(text, i) + rest) == Before(text[i], Unescape(rest))
  {
    var c := text[i];
    var s := Escape(text, i) + rest;
    assert HexEncode([c]) == [HexDigit(c / 16), HexDigit(c % 16)] + HexEncode([]);
    HexDigits(c);
    if |Escape(text, i)| == 1 {
      assert s[1..] == rest;
    } else if |Escape(text, i)| == 2 {
      assert s[2..] == rest;
    } else {
      assert s[3..] == rest;
    }
  }

  /** The escaped text from the left: what the printing loop has still to append. */
  function EscapedFrom(text: Bytes, i: nat): string
    requires i <= |text|
    decreases |text| - i
  {
    if i == |text| then "" else Escape(text, i) + EscapedFrom(text, i + 1)
  }

  lemma {:induction false} EscapedInTwo(text: Bytes, i: nat)
    requires i <= |text|
    ensures Escaped(text, |text|) == Escaped(text, i) + EscapedFrom(text, i)
    decreases |text| - i
  {
    if i < |text| {
      EscapedInTwo(text, i + 1);
      EscapedNext(text, i);
      MoveOver(Escaped(text, i), Escape(text, i), EscapedFrom(text, i + 1));
    }
  }

  lemma MoveOver(done: string, next: string, rest: string)
    ensures (done + next) + rest == done + (next + rest)
  {}

  lemma {:induction false} UnescapeFrom(text: Bytes, i: nat)
    requires i <= |text|
    ensures Unescape(EscapedFrom(text, i)) == Some(text[i..])
    decreases |text| - i
  {
    if i < |text| {
      UnescapeFrom(text, i + 1);
      UnescapeOne(text, i, EscapedFrom(text, i + 1));
      assert [text[i]] + text[i + 1..] == text[i..];
    } else {
      assert text[i..] == [];
    }
  }

  /** Escaped text never looks like hex digits. */
  lemma {:induction false} EscapedStart(text: Bytes, n: nat)
    requires 0 < n <= |text|
    ensures Escaped(text, n) != "" && Escaped(text, n)[0] != '#'
  {
    if n == 1 {
      assert Escaped(text, 1) == Escape(text, 0);
    } else {
      EscapedStart(text, n - 1);
    }
  }

  lemma ValueRoundTrip(v: Value)
    ensures ReadValue(ValueText(v)) == Some(v)
  {
    match v
    case Hex(b) =>
      HexRoundTrip(b);
      assert ValueText(v)[1..] == HexEncode(b);
    case Text(text) =>
      if text != [] { EscapedStart(text, |text|); }
      EscapedInTwo(text, 0);
      UnescapeFrom(text, 0);
      assert Escaped(text, 0) + EscapedFrom(text, 0) == EscapedFrom(text, 0) && text[0..] == text;
  }

  // ----- separators

  /** What RFC 2253, section 2.4, wants a backslash in front of, wherever it stands; the backslash itself
      is seen to by `Clean`. */
  const SPECIALS: set<char> := {',', '+', '"', '<', '>', ';'}

  /** Every separator in `s` is escaped, and no escape is left open at its end. */
  predicate Clean(s: string, sep: char) {
    CleanFrom(s, sep, 0)
  }

  predicate CleanFrom(s: string, sep: char, from: nat)
    requires from <= |s|
    decreases |s| - from
  {
    || from == |s|
    || (s[from] == '\\' && from + 2 <= |s| && CleanFrom(s, sep, from + 2))
    || (s[from] != '\\' && s[from] != sep && CleanFrom(s, sep, from + 1))
  }

  lemma CleanConcat(a: string, b: string, sep: char)
    requires Clean(a, sep) && Clean(b, sep)
    ensures Clean(a + b, sep)
  {
    CleanFront(a, b, sep, 0);
  }

  lemma {:induction false} CleanFront(a: string, b: string, sep: char, i: nat)
    requires i <= |a| && CleanFrom(a, sep, i) && Clean(b, sep)
    ensures CleanFrom(a + b, sep, i)
    decreases |a| - i
  {
    if i == |a| {
      CleanBehind(a, b, sep, 0);
    } else {
      CleanFront(a, b, sep, if a[i] == '\\' then i + 2 else i + 1);
    }
  }

  lemma {:induction false} CleanBehind(a: string, b: string, sep: char, j: nat)
    requires j <= |b| && CleanFrom(b, sep, j)
    ensures CleanFrom(a + b, sep, |a| + j)
    decreases |b| - j
  {
    if j < |b| {
      CleanBehind(a, b, sep, if b[j] == '\\' then j + 2 else j + 1);
    }
  }

  lemma {:induction false} CutAfterClean(a: string, rest: string, sep: char, i: nat)
    requires i <= |a| && CleanFrom(a, sep, i) && sep != '\\' && (rest == "" || rest[0] == sep)
    ensures CutFrom(a + rest, sep, i) == |a|
    decreases |a| - i
  {
    if i < |a| {
      CutAfterClean(a, rest, sep, if a[i] == '\\' then i + 2 else i + 1);
    }
  }

  lemma SplitAfterClean(a: string, rest: string, sep: char)
    requires Clean(a, sep) && sep != '\\'
    ensures SplitUnescaped(a + [sep] + rest, sep) == [a] + SplitUnescaped(rest, sep)
    ensures SplitUnescaped(a, sep) == [a]
  {
    CutAfterClean(a, [sep] + rest, sep, 0);
    assert a + [sep] + rest == a + ([sep] + rest);
    assert (a + ([sep] + rest))[|a| + 1..] == rest;
    CutAfterClean(a, "", sep, 0);
    assert a + "" == a;
  }

  ghost predicate AllClean(pieces: seq<string>, sep: char) {
    forall i :: 0 <= i < |pieces| ==> Clean(pieces[i], sep)
  }

  /** Splitting at unescaped separators gives back what was listed, if the first piece is not empty: no
      separator is written behind nothing. */
  lemma {:induction false} SplitListed(pieces: seq<string>, sep: char)
    requires pieces != [] && pieces[0] != "" && AllClean(pieces, sep) && sep != '\\'
    ensures Listed(pieces, sep) != ""
    ensures SplitUnescaped(Listed(pieces, sep), sep) == pieces
  {
    var n := |pieces| - 1;
    var last := pieces[n];
    SplitAfterClean(last, "", sep);
    assert pieces == pieces[..n] + [last];
    if n == 0 {
      ListedOne(last, sep);
    } else {
      SplitListedThen(pieces[..n], last, sep);
    }
  }

  lemma ListedOne(piece: string, sep: char)
    ensures Listed([piece], sep) == piece
  {
    assert [piece][..0] == [];
  }

  lemma {:induction false} SplitListedThen(pieces: seq<string>, rest: string, sep: char)
    requires pieces != [] && pieces[0] != "" && AllClean(pieces, sep) && sep != '\\'
    ensures Listed(pieces, sep) != ""
    ensures SplitUnescaped(Listed(pieces, sep) + [sep] + rest, sep) == pieces + SplitUnescaped(rest, sep)
  {
    var n := |pieces| - 1;
    var last := pieces[n];
    SplitAfterClean(last, rest, sep);
    var tail := SplitUnescaped(rest, sep);
    assert pieces == pieces[..n] + [last];
    if n == 0 {
      ListedOne(last, sep);
    } else {
      var init := pieces[..n];
      SplitListedThen(init, last + [sep] + rest, sep);
      Regroup(Listed(init, sep), [sep], last, rest);
      assert init + ([last] + tail) == pieces + tail;
    }
  }

  lemma Regroup(a: string, sep: string, b: string, c: string)
    ensures a + sep + (b + sep + c) == (a + sep + b) + sep + c
  {}

  // ----- parts and names

  /** Type names hold letters, digits and dots only. */
  predicate PlainName(name: string) {
    forall i :: 0 <= i < |name| ==>
        'a' <= name[i] <= 'z' || 'A' <= name[i] <= 'Z' || '0' <= name[i] <= '9' || name[i] == '.'
  }

  lemma PlainIsClean(s: string, sep: char)
    requires PlainName(s) && sep in SPECIALS
    ensures Clean(s, sep)
  {
    PlainIsCleanFrom(s, sep, 0);
  }

  lemma {:induction false} PlainIsCleanFrom(s: string, sep: char, i: nat)
    requires PlainName(s) && sep in SPECIALS && i <= |s|
    ensures CleanFrom(s, sep, i)
    decreases |s| - i
  {
    if i < |s| { PlainIsCleanFrom(s, sep, i + 1); }
  }

  lemma {:induction false} HexIsPlain(b: Bytes)
    ensures PlainName(HexEncode(b))
  {
    if b != [] {
      HexDigits(b[0]);
      HexIsPlain(b[1..]);
    }
  }

  lemma EscapeIsClean(text: Bytes, i: nat, sep: char)
    requires i < |text| && sep in SPECIALS
    ensures Clean(Escape(text, i), sep)
  {
    var c := text[i];
    var s := Escape(text, i);
    assert HexEncode([c]) == [HexDigit(c / 16), HexDigit(c % 16)] + HexEncode([]);
    HexDigits(c);
    assert CleanFrom(s, sep, |s|);
    if |s| == 3 { assert CleanFrom(s, sep, 2); }
  }

  lemma EscapedIsClean(text: Bytes, n: nat, sep: char)
    requires n <= |text| && sep in SPECIALS
    ensures Clean(Escaped(text, n), sep)
  {
    var pieces: seq<string> := seq(n, i requires 0 <= i < n => Escape(text, i));
    forall i | 0 <= i < n
      ensures Clean(pieces[i], sep)
    {
      EscapeIsClean(text, i, sep);
    }
    EscapedIsConcat(text, n, pieces);
    ConcatIsClean(pieces, n, sep);
  }

  function Concat(pieces: seq<string>, n: nat): string
    requires n <= |pieces|
  {
    if n == 0 then "" else Concat(pieces, n - 1) + pieces[n - 1]
  }

  lemma {:induction false} EscapedIsConcat(text: Bytes, n: nat, pieces: seq<string>)
    requires n <= |text| && n <= |pieces| && forall i :: 0 <= i < n ==> pieces[i] == Escape(text, i)
    ensures Escaped(text, n) == Concat(pieces, n)
  {
    if n > 0 {
      EscapedIsConcat(text, n - 1, pieces);
    }
  }

  lemma {:induction false} ConcatIsClean(pieces: seq<string>, n: nat, sep: char)
    requires n <= |pieces| && AllClean(pieces, sep)
    ensures Clean(Concat(pieces, n), sep)
  {
    if n > 0 {
      ConcatIsClean(pieces, n - 1, sep);
      CleanConcat(Concat(pieces, n - 1), pieces[n - 1], sep);
    }
  }

  // ----- what RFC 2253 asks of a printed value

  /** A byte is printed as it is, behind a backslash, or behind one as two hexadecimal digits: the last
      for bytes that are not visible ASCII, the second for specials, for a leading number sign, and for a
      leading or final space. */
  lemma EscapeMeans(text: Bytes, i: nat)
    requires i < |text|
    ensures var c, e := text[i], Escape(text, i);
      if c < 32 || c > 126 then
        |e| == 3 && e[0] == '\\' && IsHex(e[1]) && IsHex(e[2]) && Byte(e[1], e[2]) == c
      else if c as char in SPECIALS || c == 92 || (i == 0 && c == 35) || ((i == 0 || i == |text| - 1) && c == 32) then
        e == ['\\', c as char]
      else e == [c as char]
  {
    var c := text[i];
    assert HexEncode([c]) == [HexDigit(c / 16), HexDigit(c % 16)] + HexEncode([]);
    HexDigits(c);
  }

  predicate Visible(s: string) {
    forall k :: 0 <= k < |s| ==> ' ' <= s[k] <= '~'
  }

  /** A printed text is visible ASCII, has every special behind a backslash, begins with neither a space
      nor a number sign, and ends in no space but one behind a backslash. */
  lemma TextConforms(text: Bytes)
    ensures var v := ValueText(Text(text));
      && Visible(v)
      && (forall c :: c in SPECIALS ==> Clean(v, c))
      && (v != "" ==> v[0] != ' ' && v[0] != '#')
      && (v != "" && v[|v| - 1] == ' ' ==> |v| >= 2 && v[|v| - 2] == '\\')
  {
    VisibleText(text, |text|);
    forall c | c in SPECIALS
      ensures Clean(Escaped(text, |text|), c)
    {
      EscapedIsClean(text, |text|, c);
    }
    if text != [] {
      FirstOfEscaped(text, |text|);
      LastOfEscaped(text);
    }
  }

  lemma {:induction false} VisibleText(text: Bytes, n: nat)
    requires n <= |text|
    ensures Visible(Escaped(text, n))
  {
    if n > 0 {
      VisibleText(text, n - 1);
      VisibleEscape(text, n - 1);
      VisibleBoth(Escaped(text, n - 1), Escape(text, n - 1));
    }
  }

  lemma VisibleEscape(text: Bytes, i: nat)
    requires i < |text|
    ensures Visible(Escape(text, i))
  {
    EscapeMeans(text, i);
  }

  lemma VisibleBoth(a: string, b: string)
    requires Visible(a) && Visible(b)
    ensures Visible(a + b)
  {}

  lemma {:induction false} FirstOfEscaped(text: Bytes, n: nat)
    requires 0 < n <= |text|
    ensures Escaped(text, n) != "" && Escaped(text, n)[0] == Escape(text, 0)[0] && Escape(text, 0)[0] !in {' ', '#'}
  {
    EscapeMeans(text, 0);
    if n > 1 {
      FirstOfEscaped(text, n - 1);
    } else {
      assert Escaped(text, 0) + Escape(text, 0) == Escape(text, 0);
    }
  }

  lemma LastOfEscaped(text: Bytes)
    requires text != []
    ensures var v := Escaped(text, |text|);
      v != "" && (v[|v| - 1] == ' ' ==> |v| >= 2 && v[|v| - 2] == '\\')
  {
    EscapeMeans(text, |text| - 1);
    EscapedNext(text, |text| - 1);
  }

  // ----- which part is printed

  /** The value of an attribute: its text where the type is known and the string type gives one, but its
      encoding for teletex text that is not visible ASCII and for types that are not known. */
  lemma PartMeans(a: Attribute, d: Decoders)
    ensures ShortName(a.typeOid).None? ==>
      PartOf(a, d) == if |d.oidText(a.typeOid)| == 0 then None else Some(Part(d.oidText(a.typeOid), Hex(a.value)))
    ensures ShortName(a.typeOid).Some? ==>
      var name := ShortName(a.typeOid).value;
      match a.tag
      case T61 =>
        if forall i :: 0 <= i < |a.value| ==>
            32 <= a.value[i] <= 126 then PartOf(a, d) == Some(Part(name, Text(a.value)))
        else PartOf(a, d) == Some(Part(name, Hex(a.value)))
      case Ia5 => PartOf(a, d) == Some(Part(name, Text(a.value)))
      case Printable => PartOf(a, d) == Some(Part(name, Text(a.value)))
      case Utf8 => PartOf(a, d) == Some(Part(name, Text(a.value)))
      case Universal =>
        (d.universal(a.value) == None && PartOf(a, d) == None)
        || (d.universal(a.value).Some? && PartOf(a, d) == Some(Part(name, Text(d.universal(a.value).value))))
      case Bmp =>
        (d.bmp(a.value) == None && PartOf(a, d) == None)
        || (d.bmp(a.value).Some? && PartOf(a, d) == Some(Part(name, Text(d.bmp(a.value).value))))
      case OtherTag => PartOf(a, d) == None
  {}

  /** The short names, by the numbers of their types (RFC 5280, appendix A.1). */
  lemma ShortNamesByNumbers(oid: Bytes)
    ensures ShortName(oid) == Some("CN") <==> oid == Encode([2, 5] + [4, 3])
    ensures ShortName(oid) == Some("SN") <==> oid == Encode([2, 5] + [4, 4])
    ensures ShortName(oid) == Some("C") <==> oid == Encode([2, 5] + [4, 6])
    ensures ShortName(oid) == Some("L") <==> oid == Encode([2, 5] + [4, 7])
    ensures ShortName(oid) == Some("ST") <==> oid == Encode([2, 5] + [4, 8])
    ensures ShortName(oid) == Some("O") <==> oid == Encode([2, 5] + [4, 10])
    ensures ShortName(oid) == Some("OU") <==> oid == Encode([2, 5] + [4, 11])
    ensures ShortName(oid) == Some("givenName") <==> oid == Encode([2, 5] + [4, 42])
    ensures ShortName(oid) == Some("emailAddress") <==> oid == Encode([1, 2] + ([840] + [113549, 1, 9, 1]))
  {
    NameTable(oid);
    AttributeOid(3);
    AttributeOid(4);
    AttributeOid(6);
    AttributeOid(7);
    AttributeOid(8);
    AttributeOid(10);
    AttributeOid(11);
    AttributeOid(42);
    EmailOid();
  }

  lemma AttributeOid(n: nat)
    requires n < 128
    ensures Encode([2, 5] + [4, n]) == [0x55, 0x04, n]
  {
    EncodeSmall(2, 5, [4, n]);
  }

  lemma EmailOid()
    ensures Encode([1, 2] + ([840] + [113549, 1, 9, 1])) == EMAIL_ADDRESS
  {
    EncodeWide(1, 2, 840, [113549, 1, 9, 1]);
    TwoSeptets(840);
    ArcInFront(113549, [1, 9, 1]);
    assert Base128(113549) == [0x86, 0xF7, 0x0D] by {
      assert Leading(6) == [0x86];
      assert Leading(887) == [0x86, 0xF7];
    }
    SmallArcs([1, 9, 1]);
    assert [113549, 1, 9, 1] == [113549] + [1, 9, 1];
  }

  lemma PartIsClean(p: Part, sep: char)
    requires PlainName(p.typeName) && sep in SPECIALS
    ensures PartText(p) != "" && Clean(PartText(p), sep)
  {
    PlainIsClean(p.typeName, sep);
    OneIsClean('=', sep);
    match p.value {
      case Text(text) =>
        EscapedIsClean(text, |text|, sep);
      case Hex(b) =>
        HexIsPlain(b);
        PlainIsClean(HexEncode(b), sep);
        OneIsClean('#', sep);
        CleanConcat("#", HexEncode(b), sep);
    }
    CleanConcat(p.typeName, "=", sep);
    CleanConcat(p.typeName + "=", ValueText(p.value), sep);
  }

  lemma OneIsClean(c: char, sep: char)
    requires c != sep && c != '\\'
    ensures Clean([c], sep)
  {
    assert CleanFrom([c], sep, 1);
  }

  lemma PartRoundTrip(p: Part)
    requires PlainName(p.typeName)
    ensures ReadPart(PartText(p)) == Some(p)
  {
    var s := PartText(p);
    IndexOfUnique(s, '=', |p.typeName|);
    assert s[..|p.typeName|] == p.typeName && s[|p.typeName| + 1..] == ValueText(p.value);
    ValueRoundTrip(p.value);
  }

  ghost predicate PlainParts(parts: seq<Part>) {
    forall i :: 0 <= i < |parts| ==> PlainName(parts[i].typeName)
  }

  lemma {:induction false} PartsRoundTrip(parts: seq<Part>)
    requires PlainParts(parts)
    ensures ReadParts(PartTexts(parts)) == Some(parts)
  {
    if parts != [] {
      PartRoundTrip(parts[0]);
      PartsRoundTrip(parts[1..]);
      assert parts == [parts[0]] + parts[1..];
      EachInFront(PartText, parts[0], parts[1..]);
      ReadPartsStep(PartTexts(parts), parts[0], parts[1..]);
    }
  }

  lemma ReadPartsStep(pieces: seq<string>, p: Part, ps: seq<Part>)
    requires pieces != [] && ReadPart(pieces[0]) == Some(p) && ReadParts(pieces[1..]) == Some(ps)
    ensures ReadParts(pieces) == Some([p] + ps)
  {}

  lemma RdnRoundTrip(parts: seq<Part>)
    requires parts != [] && PlainParts(parts)
    ensures ReadParts(SplitUnescaped(RdnText(parts), '+')) == Some(parts)
    ensures RdnText(parts) != "" && Clean(RdnText(parts), ',')
  {
    forall i | 0 <= i < |parts|
      ensures PartText(parts[i]) != "" && Clean(PartText(parts[i]), '+') && Clean(PartText(parts[i]), ',')
    {
      PartIsClean(parts[i], '+');
      PartIsClean(parts[i], ',');
    }
    SplitListed(PartTexts(parts), '+');
    ListedIsClean(PartTexts(parts));
    PartsRoundTrip(parts);
  }

  lemma {:induction false} ListedIsClean(pieces: seq<string>)
    requires AllClean(pieces, ',')
    ensures Clean(Listed(pieces, '+'), ',')
  {
    if pieces != [] {
      var n := |pieces| - 1;
      ListedIsClean(pieces[..n]);
      var before := Listed(pieces[..n], '+');
      OneIsClean('+', ',');
      CleanConcat(before, "+", ',');
      CleanConcat(before + "+", pieces[n], ',');
      assert "" + pieces[n] == pieces[n];
    }
  }

  ghost predicate PlainRdns(rdns: seq<seq<Part>>) {
    forall i :: 0 <= i < |rdns| ==> PlainParts(rdns[i])
  }

  lemma RdnReads(rdn: seq<Part>)
    requires PlainParts(rdn)
    ensures ReadRdn(RdnText(rdn)) == Some(rdn)
  {
    if rdn != [] { RdnRoundTrip(rdn); }
  }

  lemma {:induction false} RdnsRoundTrip(rdns: seq<seq<Part>>)
    requires PlainRdns(rdns)
    ensures ReadRdns(RdnTexts(rdns)) == Some(rdns)
  {
    if rdns != [] {
      RdnReads(rdns[0]);
      RdnsRoundTrip(rdns[1..]);
      assert rdns == [rdns[0]] + rdns[1..];
      EachInFront(RdnText, rdns[0], rdns[1..]);
      ReadRdnsStep(RdnTexts(rdns), rdns[0], rdns[1..]);
    }
  }

  lemma ReadRdnsStep(pieces: seq<string>, rdn: seq<Part>, rdns: seq<seq<Part>>)
    requires pieces != [] && ReadRdn(pieces[0]) == Some(rdn) && ReadRdns(pieces[1..]) == Some(rdns)
    ensures ReadRdns(pieces) == Some([rdn] + rdns)
  {}

  function WithoutLeadingEmpty(rdns: seq<seq<Part>>): seq<seq<Part>> {
    if rdns != [] && rdns[0] == [] then WithoutLeadingEmpty(rdns[1..]) else rdns
  }

  lemma LeadingEmptyExactly(rdns: seq<seq<Part>>)
    ensures WithoutLeadingEmpty(rdns) == rdns <==> rdns == [] || rdns[0] != []
    ensures |WithoutLeadingEmpty(rdns)| <= |rdns|
  {
    if rdns != [] && rdns[0] == [] { LeadingEmptyExactly(rdns[1..]); }
  }

  /** An empty RDN in front of the printed ones leaves no trace. */
  lemma LeadingEmptyVanishes(rdns: seq<seq<Part>>)
    ensures NameText([[]] + rdns) == NameText(rdns)
  {
    assert RdnText([]) == "";
    EachInFront(RdnText, [], rdns);
    EmptyPieceVanishes(RdnTexts(rdns), ',');
  }

  lemma {:induction false} EmptyPieceVanishes(pieces: seq<string>, sep: char)
    ensures Listed([""] + pieces, sep) == Listed(pieces, sep)
  {
    if pieces == [] {
      ListedOne("", sep);
    } else {
      var n := |pieces| - 1;
      EmptyPieceVanishes(pieces[..n], sep);
      assert ([""] + pieces)[..n + 1] == [""] + pieces[..n];
    }
  }

  /** Reading a printed name finds all its RDNs but the empty ones that were printed first. */
  lemma {:induction false} PartsOfNameRoundTrip(rdns: seq<seq<Part>>)
    requires PlainRdns(rdns)
    ensures ReadName(NameText(rdns)) == Some(WithoutLeadingEmpty(rdns))
  {
    if rdns != [] && rdns[0] == [] {
      assert rdns == [[]] + rdns[1..];
      LeadingEmptyVanishes(rdns[1..]);
      PartsOfNameRoundTrip(rdns[1..]);
    } else if rdns != [] {
      forall i | 0 <= i < |rdns| ensures Clean(RdnText(rdns[i]), ',') {
        if rdns[i] != [] { RdnRoundTrip(rdns[i]); }
      }
      RdnRoundTrip(rdns[0]);
      SplitListed(RdnTexts(rdns), ',');
      RdnsRoundTrip(rdns);
    }
  }

  predicate DigitsAndDots(s: string) {
    forall i :: 0 <= i < |s| ==> '0' <= s[i] <= '9' || s[i] == '.'
  }

  /** What the OID printer outside this model promises: digits and dots, or nothing for a bad OID. */
  ghost predicate Dotted(d: Decoders) {
    forall oid :: DigitsAndDots(d.oidText(oid))
  }

  lemma ShortNamesArePlain(oid: Bytes)
    ensures ShortName(oid).Some? ==> PlainName(ShortName(oid).value)
  {}

  /** For every name that prints, the reader finds the type names and values of its RDNs, last first,
      without the empty RDNs at the end of the name; so it recovers the name exactly when the last RDN is
      not empty. */
  lemma NameRoundTrip(name: Name, d: Decoders)
    requires Showable(name, d) && Dotted(d)
    ensures ReadName(NameText(NameParts(name, d))) == Some(WithoutLeadingEmpty(NameParts(name, d)))
    ensures ReadName(NameText(NameParts(name, d))) == Some(NameParts(name, d)) <==> LastRdnShows(name)
  {
    var parts: seq<seq<Part>> := NameParts(name, d);
    NamePartsArePlain(name, d);
    PartsOfNameRoundTrip(parts);
    LeadingEmptyExactly(parts);
    if name != [] { assert parts[0] == RdnParts(name[|name| - 1], d); }
  }

  lemma NamePartsArePlain(name: Name, d: Decoders)
    requires Showable(name, d) && Dotted(d)
    ensures PlainRdns(NameParts(name, d))
  {
    forall i | 0 <= i < |name|
      ensures PlainParts(NameParts(name, d)[i])
    {
      RdnPartsArePlain(name[|name| - 1 - i], d);
    }
  }

  predicate LastRdnShows(name: Name) {
    name != [] ==> name[|name| - 1] != []
  }

  /** No reader can do better: a name with one more, empty RDN at its end prints the same. */
  lemma EmptyLastRdnVanishes(name: Name, d: Decoders)
    requires Showable(name, d)
    ensures Showable(name + [[]], d) && NameText(NameParts(name + [[]], d)) == NameText(NameParts(name, d))
  {
    var longer := name + [[]];
    var parts := NameParts(longer, d);
    forall i | 0 < i < |parts| ensures parts[i] == NameParts(name, d)[i - 1] {
      assert longer[|longer| - 1 - i] == name[|name| - i];
    }
    assert parts[0] == RdnParts([], d) == [];
    assert parts == [[]] + NameParts(name, d);
    LeadingEmptyVanishes(NameParts(name, d));
  }

  lemma RdnPartsArePlain(rdn: seq<Attribute>, d: Decoders)
    requires ShowableRdn(rdn, d) && Dotted(d)
    ensures PlainParts(RdnParts(rdn, d))
  {
    forall j | 0 <= j < |rdn| ensures PlainName(PartOf(rdn[j], d).value.typeName) {
      ShortNamesArePlain(rdn[j].typeOid);
    }
  }

  /** Printing is one to one on types: names whose last RDN is not empty that print alike have the same
      shape and the same attribute types in the same places, if different OIDs have different texts. */
  lemma SamePrintSameTypes(a: Name, b: Name, d: Decoders)
    requires Showable(a, d) && Showable(b, d) && Dotted(d)
    requires LastRdnShows(a) && LastRdnShows(b)
    requires forall x, y :: d.oidText(x) == d.oidText(y) != "" ==> x == y
    requires NameText(NameParts(a, d)) == NameText(NameParts(b, d))
    ensures |a| == |b|
    ensures forall i :: 0 <= i < |a| ==> SameTypes(a[i], b[i])
  {
    NameRoundTrip(a, d);
    NameRoundTrip(b, d);
    var parts := NameParts(a, d);
    assert parts == NameParts(b, d);
    forall i | 0 <= i < |a| ensures SameTypes(a[i], b[i]) {
      assert parts[|a| - 1 - i] == RdnParts(a[i], d) == RdnParts(b[i], d);
      SamePartsSameTypes(a[i], b[i], d);
    }
  }

  predicate SameTypes(a: seq<Attribute>, b: seq<Attribute>) {
    |a| == |b| && forall j :: 0 <= j < |a| ==> a[j].typeOid == b[j].typeOid
  }

  lemma SamePartsSameTypes(a: seq<Attribute>, b: seq<Attribute>, d: Decoders)
    requires ShowableRdn(a, d) && ShowableRdn(b, d) && Dotted(d)
    requires forall x, y :: d.oidText(x) == d.oidText(y) != "" ==> x == y
    requires RdnParts(a, d) == RdnParts(b, d)
    ensures SameTypes(a, b)
  {
    assert |a| == |RdnParts(a, d)| == |b|;
    forall j | 0 <= j < |a| ensures a[j].typeOid == b[j].typeOid {
      assert RdnParts(a, d)[j] == RdnParts(b, d)[j];
      NameOfType(a[j], d);
      NameOfType(b[j], d);
      ShortNamesDiffer(a[j].typeOid, b[j].typeOid);
    }
  }

  /** A short name starts with a letter, so no OID text is one. */
  lemma NameOfType(a: Attribute, d: Decoders)
    requires PartOf(a, d).Some? && Dotted(d)
    ensures var name := PartOf(a, d).value.typeName;
      if DigitsAndDots(name) then ShortName(a.typeOid).None? && name == d.oidText(a.typeOid) != ""
      else ShortName(a.typeOid) == Some(name)
  {
    var short := ShortName(a.typeOid);
    if short.Some? { assert !('0' <= short.value[0] <= '9') && short.value[0] != '.'; }
  }

  lemma ShortNamesDiffer(a: Bytes, b: Bytes)
    ensures ShortName(a).Some? && ShortName(a) == ShortName(b) ==> a == b
  {
    NameTable(a);
    NameTable(b);
    assert "CN"[1] == 'N' && "SN"[1] == 'N' && "ST"[1] == 'T' && "OU"[1] == 'U';
  }

  /** The short names, inverted. */
  lemma NameTable(a: Bytes)
    ensures ShortName(a) == Some("CN") ==> a == COMMON_NAME
    ensures ShortName(a) == Some("SN") ==> a == SURNAME
    ensures ShortName(a) == Some("C") ==> a == COUNTRY_NAME
    ensures ShortName(a) == Some("L") ==> a == LOCALITY_NAME
    ensures ShortName(a) == Some("ST") ==> a == STATE_OR_PROVINCE_NAME
    ensures ShortName(a) == Some("O") ==> a == ORGANIZATION_NAME
    ensures ShortName(a) == Some("OU") ==> a == ORGANIZATION_UNIT_NAME
    ensures ShortName(a) == Some("givenName") ==> a == GIVEN_NAME
    ensures ShortName(a) == Some("emailAddress") ==> a == EMAIL_ADDRESS
  {
    var names := ["CN", "SN", "C", "L", "ST", "O", "OU", "givenName", "emailAddress"];
    assert |names[2]| == |names[3]| == |names[5]| == 1 && names[2][0] == 'C' && names[3][0] == 'L'
        && names[5][0] == 'O';
    assert |names[0]| == |names[1]| == |names[4]| == |names[6]| == 2;
    assert names[0][0] == 'C' && names[1][0] == 'S' && names[4][0] == 'S' && names[6][0] == 'O';
    assert names[1][1] == 'N' && names[4][1] == 'T';
    assert |names[7]| == 9 && |names[8]| == 12;
  }
}
