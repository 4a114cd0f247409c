/** Encoding and parsing of GeneralizedTime and UTCTime (`encode_values.cc`, `parse_values.cc`;
    RFC 5280, section 4.1.2.5), digit by digit. */
module TimeValues {
  import opened Input
  import opened Options

  type u16 = x: int | 0 <= x < 0x1_0000

  datatype GeneralizedTime = GeneralizedTime(year: u16, month: u8, day: u8, hours: u8, minutes: u8, seconds: u8)

  const GENERALIZED_TIME_LENGTH := 15
  const UTC_TIME_LENGTH := 13
  const ZERO: u8 := 48
  const ZULU: u8 := 90

  // ----- validity and order

  predicate IsLeapYear(year: int) {
    year % 4 == 0 && (year % 100 != 0 || year % 400 == 0)
  }

  /** The day exists in its month, and the clock reads a time, a leap second included. */
  predicate ValidateGeneralizedTime(t: GeneralizedTime) {
    && 1 <= t.month <= 12
    && 1 <= t.day
    && t.hours <= 23
    && t.minutes <= 59
    && t.seconds <= 60
    && t.day <= (if t.month in {4, 6, 9, 11} then 30
                 else if t.month != 2 then 31
                 else if IsLeapYear(t.year) then 29 else 28)
  }

  predicate InUTCTimeRange(t: GeneralizedTime) {
    1950 <= t.year < 2050
  }

  predicate Before(a: GeneralizedTime, b: GeneralizedTime) {
    if a.year != b.year then a.year < b.year
    else if a.month != b.month then a.month < b.month
    else if a.day != b.day then a.day < b.day
    else if a.hours != b.hours then a.hours < b.hours
    else if a.minutes != b.minutes then a.minutes < b.minutes
    else a.seconds < b.seconds
  }

  // ----- the texts

  function TwoDigits(v: nat): (s: seq<u8>)
    requires v < 100
    ensures |s| == 2
  {
    [ZERO + v / 10, ZERO + v % 10]
  }

  function FourDigits(v: nat): (s: seq<u8>)
    requires v < 10000
    ensures |s| == 4
  {
    TwoDigits(v / 100) + TwoDigits(v % 100)
  }

  /** Every field fits the digits it gets. */
  predicate FieldsFit(t: GeneralizedTime) {
    t.month < 100 && t.day < 100 && t.hours < 100 && t.minutes < 100 && t.seconds < 100
  }

  function RestText(t: GeneralizedTime): (s: seq<u8>)
    requires FieldsFit(t)
    ensures |s| == 11
  {
    TwoDigits(t.month)
        + (TwoDigits(t.day) + (TwoDigits(t.hours) + (TwoDigits(t.minutes) + (TwoDigits(t.seconds) + [ZULU]))))
  }

  function GeneralizedText(t: GeneralizedTime): Option<seq<u8>> {
    if t.year < 10000 && FieldsFit(t) then Some(FourDigits(t.year) + RestText(t)) else None
  }

  function UtcText(t: GeneralizedTime): Option<seq<u8>> {
    if InUTCTimeRange(t) && FieldsFit(t) then Some(TwoDigits(t.year % 100) + RestText(t)) else None
  }

  // ----- encoders

  method WriteTwoDigit(value: u8, out: array<u8>, at: nat) returns (ok: bool)
    requires at + 2 <= out.Length
    modifies out
    ensures ok <==> value < 100
    ensures ok ==> out[at] == TwoDigits(value)[0] && out[at + 1] == TwoDigits(value)[1]
    ensures forall i :: 0 <= i < out.Length && (!ok || i < at || at + 2 <= i) ==> out[i] == old(out[i])
  {
    if value >= 100 {
      return false;
    }
    out[at] := ZERO + value / 10;
    out[at + 1] := ZERO + value % 10;
    return true;
  }

  method WriteFourDigit(value: u16, out: array<u8>) returns (ok: bool)
    requires 4 <= out.Length
    modifies out
    ensures ok <==> value < 10000
    ensures ok ==> out[..4] == FourDigits(value)
    ensures forall i :: 0 <= i < out.Length && (!ok || 4 <= i) ==> out[i] == old(out[i])
  {
    if value >= 10000 {
      return false;
    }
    var v := value;
    out[3] := ZERO + v % 10;
    v := v / 10;
    out[2] := ZERO + v % 10;
    v := v / 10;
    out[1] := ZERO + v % 10;
    v := v / 10;
    out[0] := ZERO + v;
    FourDigitsOf(value);
    assert out[..4] == [out[0], out[1], out[2], out[3]];
    return true;
  }

  lemma FourDigitsOf(v: nat)
    requires v < 10000
    ensures FourDigits(v) == [ZERO + v / 10 / 10 / 10, ZERO + v / 10 / 10 % 10, ZERO + v / 10 % 10, ZERO + v % 10]
  {
    assert v / 100 / 10 == v / 10 / 10 / 10 && v / 100 % 10 == v / 10 / 10 % 10;
    assert v % 100 / 10 == v / 10 % 10 && v % 100 % 10 == v % 10;
  }

  /** The five fields after the year, and the final `Z`; stops at the first field that does not fit. */
  method WriteRest(time: GeneralizedTime, out: array<u8>, at: nat) returns (ok: bool)
    requires out.Length == at + 11
    modifies out
    ensures ok <==> FieldsFit(time)
    ensures ok ==> out[at..] == RestText(time)
    ensures forall i :: 0 <= i < at ==> out[i] == old(out[i])
  {
    ok := WriteTwoDigit(time.month, out, at);
    if !ok { return; }
    ok := WriteTwoDigit(time.day, out, at + 2);
    if !ok { return; }
    ok := WriteTwoDigit(time.hours, out, at + 4);
    if !ok { return; }
    ok := WriteTwoDigit(time.minutes, out, at + 6);
    if !ok { return; }
    ok := WriteTwoDigit(time.seconds, out, at + 8);
    if !ok { return; }
    out[at + 10] := ZULU;
  }

  method EncodeGeneralizedTime(time: GeneralizedTime, out: array<u8>) returns (ok: bool)
    requires out.Length == GENERALIZED_TIME_LENGTH
    modifies out
    ensures ok <==> GeneralizedText(time).Some?
    ensures ok ==> out[..] == GeneralizedText(time).value
  {
    ok := WriteFourDigit(time.year, out);
    if !ok { return; }
    assert out[..4] == FourDigits(time.year);
    ghost var year := out[..4];
    ok := WriteRest(time, out, 4);
    if !ok { return; }
    assert out[..4] == year;
    assert out[..] == out[..4] + out[4..];
  }

  method EncodeUTCTime(time: GeneralizedTime, out: array<u8>) returns (ok: bool)
    requires out.Length == UTC_TIME_LENGTH
    modifies out
    ensures ok <==> UtcText(time).Some?
    ensures ok ==> out[..] == UtcText(time).value
  {
    if !InUTCTimeRange(time) {
      return false;
    }
    var year := time.year - 1900;
    if year >= 100 {
      year := year - 100;
    }
    assert year == time.year % 100;
    ok := WriteTwoDigit(year, out, 0);
    if !ok { return; }
    ghost var written := out[..2];
    assert written == TwoDigits(time.year % 100);
    ok := WriteRest(time, out, 2);
    if !ok { return; }
    assert out[..2] == written;
    assert out[..] == out[..2] + out[2..];
  }

  // ----- parsers

  predicate IsDigit(b: u8) {
    ZERO <= b <= 57
  }

  predicate AllDigits(s: seq<u8>) {
    forall i :: 0 <= i < |s| ==> IsDigit(s[i])
  }

  /** The number a string of digits spells. */
  function Decimal(s: seq<u8>): (v: nat)
    requires AllDigits(s)
  {
    if s == [] then 0 else Decimal(s[..|s| - 1]) * 10 + (s[|s| - 1] - ZERO)
  }

  method DecimalStringToUint(reader: ByteReader, digits: nat) returns (ok: bool, value: nat)
    modifies reader
    ensures ok <==> digits <= |old(reader.data)| && AllDigits(old(reader.data)[..digits])
    ensures ok ==> value == Decimal(old(reader.data)[..digits]) && reader.data == old(reader.data)[digits..]
  {
    ghost var input := reader.data;
    value := 0;
    for i := 0 to digits
      invariant i <= |input| && reader.data == input[i..]
      invariant AllDigits(input[..i]) && value == Decimal(input[..i])
    {
      var read, digit := reader.ReadByte();
      if !read {
        return false, 0;
      }
      if digit < ZERO || digit > 57 {
        if digits <= |input| { assert input[..digits][i] == digit; }
        return false, 0;
      }
      value := value * 10 + (digit - ZERO);
      assert input[..i + 1][..i] == input[..i];
    }
    return true, value;
  }

  /** Two digits at a position. */
  function Field(s: seq<u8>, at: nat): (v: nat)
    requires at + 2 <= |s| && AllDigits(s[at..at + 2])
    ensures v < 100 && TwoDigits(v) == s[at..at + 2]
  {
    var d := s[at..at + 2];
    DecimalOfTwo(d);
    Decimal(d)
  }

  lemma DecimalOfTwo(d: seq<u8>)
    requires |d| == 2 && AllDigits(d)
    ensures Decimal(d) == (d[0] - ZERO) * 10 + (d[1] - ZERO) < 100 && TwoDigits(Decimal(d)) == d
  {
    assert d[..1] == [d[0]] && d[..1][..0] == [];
    assert Decimal(d[..1]) == d[0] - ZERO;
  }

  lemma DecimalOfFour(d: seq<u8>)
    requires |d| == 4 && AllDigits(d)
    ensures Decimal(d) < 10000 && FourDigits(Decimal(d)) == d
  {
    var a, b := Decimal(d[..2]), Decimal(d[2..]);
    DecimalOfTwo(d[..2]);
    DecimalOfTwo(d[2..]);
    assert Decimal(d) == a * 100 + b by {
      assert d[..3][..2] == d[..2];
      assert Decimal(d[..3]) == a * 10 + (d[2] - ZERO);
    }
    assert (a * 100 + b) / 100 == a && (a * 100 + b) % 100 == b;
    assert d == d[..2] + d[2..];
  }

  /** The fields after the year, then `Z`, then the end. */
  function ParsedRest(year: u16, s: seq<u8>): Option<GeneralizedTime> {
    if |s| == 11 && AllDigits(s[..10]) && s[10] == ZULU then
      DigitPairs(s);
      var t := GeneralizedTime(year, Field(s, 0), Field(s, 2), Field(s, 4), Field(s, 6), Field(s, 8));
      if ValidateGeneralizedTime(t) then Some(t) else None
    else None
  }

  lemma DigitPairs(s: seq<u8>)
    requires |s| >= 10 && AllDigits(s[..10])
    ensures AllDigits(s[0..2]) && AllDigits(s[2..4]) && AllDigits(s[4..6]) && AllDigits(s[6..8]) && AllDigits(s[8..10])
  {
    assert forall i :: 0 <= i < 10 ==> s[i] == s[..10][i];
  }

  function ParsedGeneralized(s: seq<u8>): Option<GeneralizedTime> {
    if |s| >= 4 && AllDigits(s[..4]) then
      DecimalOfFour(s[..4]);
      ParsedRest(Decimal(s[..4]), s[4..])
    else None
  }

  /** Two digits of a year stand for 1950 to 2049. */
  function ParsedUtc(s: seq<u8>): Option<GeneralizedTime> {
    if |s| >= 2 && AllDigits(s[..2]) then
      DecimalOfTwo(s[..2]);
      var y := Decimal(s[..2]);
      ParsedRest(if y < 50 then y + 2000 else y + 1900, s[2..])
    else None
  }

  method ReadField(reader: ByteReader) returns (ok: bool, value: u8)
    modifies reader
    ensures ok <==> 2 <= |old(reader.data)| && AllDigits(old(reader.data)[..2])
    ensures ok ==> value == Decimal(old(reader.data)[..2]) && reader.data == old(reader.data)[2..]
  {
    var v;
    ok, v := DecimalStringToUint(reader, 2);
    value := 0;
    if ok {
      DecimalOfTwo(old(reader.data)[..2]);
      value := v;
    }
  }

  method ReadRest(reader: ByteReader, year: u16) returns (time: Option<GeneralizedTime>)
    modifies reader
    ensures time == ParsedRest(year, old(reader.data))
  {
    ghost var s := reader.data;
    var ok, month, day, hours, minutes, seconds, zulu;
    ok, month := ReadField(reader);
    if !ok { DigitsAt(s, 0); return None; }
    assert reader.data == s[2..];
    ok, day := ReadField(reader);
    if !ok { DigitsAt(s, 2); return None; }
    assert reader.data == s[4..];
    ok, hours := ReadField(reader);
    if !ok { DigitsAt(s, 4); return None; }
    assert reader.data == s[6..];
    ok, minutes := ReadField(reader);
    if !ok { DigitsAt(s, 6); return None; }
    assert reader.data == s[8..];
    ok, seconds := ReadField(reader);
    if !ok { DigitsAt(s, 8); return None; }
    assert reader.data == s[10..];
    PairsMakeAll(s);
    ok, zulu := reader.ReadByte();
    if !ok || zulu != ZULU || reader.data != [] {
      return None;
    }
    assert |s| == 11 && s[10] == ZULU;
    var t := GeneralizedTime(year, month, day, hours, minutes, seconds);
    assert t == GeneralizedTime(year, Field(s, 0), Field(s, 2), Field(s, 4), Field(s, 6), Field(s, 8));
    return if ValidateGeneralizedTime(t) then Some(t) else None;
  }

  lemma DigitsAt(s: seq<u8>, at: nat)
    requires at <= 8
    ensures |s| >= 10 && AllDigits(s[..10]) ==> AllDigits(s[at..][..2])
  {
    if |s| >= 10 && AllDigits(s[..10]) {
      forall k | 0 <= k < 2 ensures IsDigit(s[at..][..2][k]) {
        assert s[at..][..2][k] == s[..10][at + k];
      }
    }
  }

  lemma PairsMakeAll(s: seq<u8>)
    requires |s| >= 10 && AllDigits(s[..2]) && AllDigits(s[2..][..2]) && AllDigits(s[4..][..2])
      && AllDigits(s[6..][..2]) && AllDigits(s[8..][..2])
    ensures AllDigits(s[..10])
    ensures s[..2] == s[0..2] && s[2..][..2] == s[2..4] && s[4..][..2] == s[4..6] && s[6..][..2] == s[6..8]
      && s[8..][..2] == s[8..10]
  {
    assert s[..10] == s[..2] + s[2..][..2] + s[4..][..2] + s[6..][..2] + s[8..][..2];
  }

  method ParseGeneralizedTime(input: seq<u8>) returns (time: Option<GeneralizedTime>)
    ensures time == ParsedGeneralized(input)
    ensures time.Some? ==> 1 <= time.value.month <= 12 && 1 <= time.value.day <= 31
    ensures time.Some? ==> time.value.hours <= 23 && time.value.minutes <= 59 && time.value.seconds <= 60
  {
    var reader := new ByteReader(input);
    var ok, year := DecimalStringToUint(reader, 4);
    if !ok {
      return None;
    }
    DecimalOfFour(input[..4]);
    time := ReadRest(reader, year);
  }

  method ParseUTCTime(input: seq<u8>) returns (time: Option<GeneralizedTime>)
    ensures time == ParsedUtc(input)
    ensures time.Some? ==> 1 <= time.value.month <= 12 && 1 <= time.value.day <= 31
    ensures time.Some? ==> time.value.hours <= 23 && time.value.minutes <= 59 && time.value.seconds <= 60
  {
    var reader := new ByteReader(input);
    var ok, year := ReadField(reader);
    if !ok {
      return None;
    }
    DecimalOfTwo(input[..2]);
    var y: int := year;
    time := ReadRest(reader, if y < 50 then y + 2000 else y + 1900);
  }

  // ----- encoding and parsing undo each other

  lemma DecimalOfTwoDigits(v: nat)
    requires v < 100
    ensures AllDigits(TwoDigits(v)) && Decimal(TwoDigits(v)) == v
  {
    DecimalOfTwo(TwoDigits(v));
  }

  lemma DecimalOfFourDigits(v: nat)
    requires v < 10000
    ensures AllDigits(FourDigits(v)) && Decimal(FourDigits(v)) == v
  {
    var d := FourDigits(v);
    assert d[..2] == TwoDigits(v / 100) && d[2..] == TwoDigits(v % 100);
    DecimalOfTwoDigits(v / 100);
    DecimalOfTwoDigits(v % 100);
    DecimalOfFour(d);
    assert d[..2] == TwoDigits(Decimal(d) / 100) && d[2..] == TwoDigits(Decimal(d) % 100);
    DecimalOfTwoDigits(Decimal(d) / 100);
    DecimalOfTwoDigits(Decimal(d) % 100);
  }

  lemma FieldOfText(v: nat, s: seq<u8>, at: nat)
    requires v < 100 && at + 2 <= |s| && s[at..at + 2] == TwoDigits(v)
    ensures AllDigits(s[at..at + 2]) && Field(s, at) == v
  {
    DecimalOfTwoDigits(v);
  }

  lemma RestTextFields(t: GeneralizedTime)
    requires FieldsFit(t)
    ensures var s := RestText(t);
            && s[0..2] == TwoDigits(t.month) && s[2..4] == TwoDigits(t.day) && s[4..6] == TwoDigits(t.hours)
            && s[6..8] == TwoDigits(t.minutes) && s[8..10] == TwoDigits(t.seconds) && s[10] == ZULU
  {}

  /** The text of the fields is accepted exactly when the time is valid, and nothing else is. */
  lemma RestRoundTrip(year: u16, s: seq<u8>, t: GeneralizedTime)
    ensures ParsedRest(year, s) == Some(t) <==>
      t.year == year && ValidateGeneralizedTime(t) && FieldsFit(t) && s == RestText(t)
  {
    if FieldsFit(t) && s == RestText(t) {
      RestTextParses(s, t);
    }
    if ParsedRest(year, s) == Some(t) {
      ParsedRestIsText(year, s, t);
    }
  }

  lemma RestTextParses(s: seq<u8>, t: GeneralizedTime)
    requires FieldsFit(t) && s == RestText(t)
    ensures ParsedRest(t.year, s) == (if ValidateGeneralizedTime(t) then Some(t) else None)
  {
    RestTextFields(t);
    FieldOfText(t.month, s, 0);
    FieldOfText(t.day, s, 2);
    FieldOfText(t.hours, s, 4);
    FieldOfText(t.minutes, s, 6);
    FieldOfText(t.seconds, s, 8);
    assert s[2..][..2] == s[2..4] && s[4..][..2] == s[4..6] && s[6..][..2] == s[6..8] && s[8..][..2] == s[8..10]
        && s[..2] == s[0..2];
    PairsMakeAll(s);
  }

  lemma ParsedRestIsText(year: u16, s: seq<u8>, t: GeneralizedTime)
    requires ParsedRest(year, s) == Some(t)
    ensures FieldsFit(t) && s == RestText(t)
  {
    DigitPairs(s);
    RestTextFields(t);
    assert s == s[0..2] + (s[2..4] + (s[4..6] + (s[6..8] + (s[8..10] + [s[10]]))));
  }

  /** Parsing a GeneralizedTime gives `t` exactly when `t` is valid and the text encodes it. */
  lemma GeneralizedTimeRoundTrip(s: seq<u8>, t: GeneralizedTime)
    ensures ParsedGeneralized(s) == Some(t) <==> ValidateGeneralizedTime(t) && GeneralizedText(t) == Some(s)
  {
    if |s| >= 4 { RestRoundTrip(t.year, s[4..], t); }
    if t.year < 10000 && FieldsFit(t) {
      var text := FourDigits(t.year) + RestText(t);
      DecimalOfFourDigits(t.year);
      assert text[..4] == FourDigits(t.year) && text[4..] == RestText(t);
    }
    if ParsedGeneralized(s) == Some(t) {
      DecimalOfFour(s[..4]);
      assert s == s[..4] + s[4..];
    }
  }

  /** The same for UTCTime; its texts are those of the years 1950 to 2049. */
  lemma UtcTimeRoundTrip(s: seq<u8>, t: GeneralizedTime)
    ensures ParsedUtc(s) == Some(t) <==> ValidateGeneralizedTime(t) && UtcText(t) == Some(s)
  {
    if ParsedUtc(s) == Some(t) {
      ParsedUtcIsText(s, t);
    }
    if ValidateGeneralizedTime(t) && UtcText(t) == Some(s) {
      UtcTextParses(s, t);
    }
  }

  lemma ParsedUtcIsText(s: seq<u8>, t: GeneralizedTime)
    requires ParsedUtc(s) == Some(t)
    ensures ValidateGeneralizedTime(t) && UtcText(t) == Some(s)
  {
    DecimalOfTwo(s[..2]);
    RestRoundTrip(t.year, s[2..], t);
    assert t.year % 100 == Decimal(s[..2]);
    assert s == s[..2] + s[2..];
  }

  lemma UtcTextParses(s: seq<u8>, t: GeneralizedTime)
    requires ValidateGeneralizedTime(t) && UtcText(t) == Some(s)
    ensures ParsedUtc(s) == Some(t)
  {
    Parts(TwoDigits(t.year % 100), RestText(t));
    DecimalOfTwoDigits(t.year % 100);
    RestRoundTrip(t.year, s[2..], t);
  }

  lemma Parts(a: seq<u8>, b: seq<u8>)
    ensures (a + b)[..|a|] == a && (a + b)[|a|..] == b
  {}

  // ----- encoding keeps the order

  lemma TwoDigitsOrder(v: nat, w: nat)
    requires v < 100 && w < 100
    ensures Less(TwoDigits(v), TwoDigits(w)) <==> v < w
    ensures TwoDigits(v) == TwoDigits(w) <==> v == w
  {
    var a, b := TwoDigits(v), TwoDigits(w);
    assert a[1..] == [a[1]] && b[1..] == [b[1]];
    assert Less(a[1..], b[1..]) <==> a[1] < b[1];
  }

  lemma FourDigitsOrder(v: nat, w: nat)
    requires v < 10000 && w < 10000
    ensures Less(FourDigits(v), FourDigits(w)) <==> v < w
    ensures FourDigits(v) == FourDigits(w) <==> v == w
  {
    LessConcat(TwoDigits(v / 100), TwoDigits(v % 100), TwoDigits(w / 100), TwoDigits(w % 100));
    TwoDigitsOrder(v / 100, w / 100);
    TwoDigitsOrder(v % 100, w % 100);
    assert FourDigits(v)[..2] == TwoDigits(v / 100) && FourDigits(v)[2..] == TwoDigits(v % 100);
    assert FourDigits(w)[..2] == TwoDigits(w / 100) && FourDigits(w)[2..] == TwoDigits(w % 100);
  }

  /** One more field in front. */
  lemma FieldFirst(v: nat, w: nat, a: seq<u8>, b: seq<u8>)
    requires v < 100 && w < 100
    ensures Less(TwoDigits(v) + a, TwoDigits(w) + b) <==> v < w || (v == w && Less(a, b))
  {
    LessConcat(TwoDigits(v), a, TwoDigits(w), b);
    TwoDigitsOrder(v, w);
  }

  /** The order of the fields after the year. */
  lemma RestOrder(a: GeneralizedTime, b: GeneralizedTime)
    requires FieldsFit(a) && FieldsFit(b)
    ensures Less(RestText(a), RestText(b)) <==> Before(a.(year := 0), b.(year := 0))
  {
    var a5, b5 := TwoDigits(a.seconds) + [ZULU], TwoDigits(b.seconds) + [ZULU];
    var a4, b4 := TwoDigits(a.minutes) + a5, TwoDigits(b.minutes) + b5;
    var a3, b3 := TwoDigits(a.hours) + a4, TwoDigits(b.hours) + b4;
    var a2, b2 := TwoDigits(a.day) + a3, TwoDigits(b.day) + b3;
    FieldFirst(a.month, b.month, a2, b2);
    FieldFirst(a.day, b.day, a3, b3);
    FieldFirst(a.hours, b.hours, a4, b4);
    FieldFirst(a.minutes, b.minutes, a5, b5);
    FieldFirst(a.seconds, b.seconds, [ZULU], [ZULU]);
  }

  /** Times are ordered as the bytes of their GeneralizedTime encodings are. */
  lemma EncodingKeepsOrder(a: GeneralizedTime, b: GeneralizedTime)
    requires GeneralizedText(a).Some? && GeneralizedText(b).Some?
    ensures Before(a, b) <==> Less(GeneralizedText(a).value, GeneralizedText(b).value)
  {
    FourDigitsOrder(a.year, b.year);
    LessConcat(FourDigits(a.year), RestText(a), FourDigits(b.year), RestText(b));
    RestOrder(a, b);
  }

  /** UTCTime encodings are ordered as their times are exactly within one century: the window starts in
      1950, and the year 2000 is written as 00. */
  lemma UtcEncodingOrderExactly(a: GeneralizedTime, b: GeneralizedTime)
    requires UtcText(a).Some? && UtcText(b).Some?
    ensures (Before(a, b) <==> Less(UtcText(a).value, UtcText(b).value)) <==> (a.year < 2000 <==> b.year < 2000)
  {
    UtcTextOrder(a, b);
    YearsFirst(a, b);
    WindowOrder(a.year, b.year, Before(a.(year := 0), b.(year := 0)));
  }

  lemma YearsFirst(a: GeneralizedTime, b: GeneralizedTime)
    ensures Before(a, b) <==> a.year < b.year || (a.year == b.year && Before(a.(year := 0), b.(year := 0)))
  {}

  /** Two-digit years put fields first that differ in the same way exactly within one century. */
  lemma WindowOrder(y: int, z: int, rest: bool)
    requires 1950 <= y < 2050 && 1950 <= z < 2050
    ensures ((y < z || (y == z && rest)) <==> (y % 100 < z % 100 || (y % 100 == z % 100 && rest))) <==>
      (y < 2000 <==> z < 2000)
  {
    TwoDigitYears(y, z);
    TwoDigitYears(z, y);
  }

  lemma UtcTextOrder(a: GeneralizedTime, b: GeneralizedTime)
    requires UtcText(a).Some? && UtcText(b).Some?
    ensures Less(UtcText(a).value, UtcText(b).value) <==>
      a.year % 100 < b.year % 100 || (a.year % 100 == b.year % 100 && Before(a.(year := 0), b.(year := 0)))
  {
    FieldFirst(a.year % 100, b.year % 100, RestText(a), RestText(b));
    RestOrder(a, b);
  }

  lemma TwoDigitYears(y: int, z: int)
    requires 1950 <= y < 2050 && 1950 <= z < 2050
    ensures (y < 2000 <==> z < 2000) ==> (y % 100 < z % 100 <==> y < z) && (y % 100 == z % 100 <==> y == z)
    ensures y < 2000 <= z ==> z % 100 < y % 100
  {}

  /** The last day of 1999 comes before the first of 2000, and its encoding after. */
  lemma UtcEncodingBreaksOrder()
    ensures var a, b := GeneralizedTime(1999, 12, 31, 0, 0, 0), GeneralizedTime(2000, 1, 1, 0, 0, 0);
            Before(a, b) && UtcText(a).Some? && UtcText(b).Some? && Less(UtcText(b).value, UtcText(a).value)
  {}

  function DigitOf(c: u8): int {
    var code: int := c;
    code - 48
  }

  /** The encodings, character by character: digits of the fields in the order year, month, day, hours,
      minutes, seconds, the most significant one first, and a final Z. */
  lemma TextsMean(t: GeneralizedTime)
    ensures GeneralizedText(t).Some? <==> t.year <= 9999 && FieldsFit(t)
    ensures GeneralizedText(t).Some? ==>
      var s := GeneralizedText(t).value;
      && |s| == 15 && s[14] == 90 && (forall i :: 0 <= i < 14 ==> 48 <= s[i] <= 57)
      && 1000 * DigitOf(s[0]) + 100 * DigitOf(s[1]) + 10 * DigitOf(s[2]) + DigitOf(s[3]) == t.year
      && 10 * DigitOf(s[4]) + DigitOf(s[5]) == t.month && 10 * DigitOf(s[6]) + DigitOf(s[7]) == t.day
      && 10 * DigitOf(s[8]) + DigitOf(s[9]) == t.hours && 10 * DigitOf(s[10]) + DigitOf(s[11]) == t.minutes
      && 10 * DigitOf(s[12]) + DigitOf(s[13]) == t.seconds
    ensures UtcText(t).Some? <==> 1950 <= t.year <= 2049 && FieldsFit(t)
    ensures UtcText(t).Some? ==>
      var s := UtcText(t).value;
      && |s| == 13 && 48 <= s[0] <= 57 && 48 <= s[1] <= 57
      && t.year == 10 * DigitOf(s[0]) + DigitOf(s[1]) + (if t.year < 2000 then 1900 else 2000)
      && GeneralizedText(t).Some? && s[2..] == GeneralizedText(t).value[4..]
  {
    if FieldsFit(t) { RestTextDigits(t); }
  }

  lemma RestTextDigits(t: GeneralizedTime)
    requires FieldsFit(t)
    ensures var s := RestText(t);
      && s[10] == 90 && (forall i :: 0 <= i < 10 ==> 48 <= s[i] <= 57)
      && 10 * DigitOf(s[0]) + DigitOf(s[1]) == t.month && 10 * DigitOf(s[2]) + DigitOf(s[3]) == t.day
      && 10 * DigitOf(s[4]) + DigitOf(s[5]) == t.hours && 10 * DigitOf(s[6]) + DigitOf(s[7]) == t.minutes
      && 10 * DigitOf(s[8]) + DigitOf(s[9]) == t.seconds
  {}
}
