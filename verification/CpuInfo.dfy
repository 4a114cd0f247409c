/** The tokenizer for `/proc/cpuinfo` (`cpu_arm_linux.h`): pieces of a text, advanced and cut in place. */
module CpuInfo {
  import opened AsciiText
  import opened Options

  /** A view of `len` characters of a text, from position `data` on. */
  class StringPiece {
    var text: string
    var data: nat
    var len: nat

    constructor (t: string)
      ensures Valid() && Content() == t
    {
      text, data, len := t, 0, |t|;
    }

    ghost predicate Valid()
      reads this
    {
      data + len <= |text|
    }

    ghost function Content(): (s: string)
      reads this
      requires Valid()
      ensures |s| == len
    {
      text[data..data + len]
    }

    method Assign(other: StringPiece)
      requires other.Valid()
      modifies this
      ensures Valid() && Content() == old(other.Content())
    {
      text, data, len := other.text, other.data, other.len;
    }

    method Equals(b: string) returns (r: bool)
      requires Valid()
      ensures r <==> Content() == b
    {
      return len == |b| && text[data..data + len] == b;
    }

    /** Both loops: the blanks in front, then those behind. */
    method Trim()
      requires Valid()
      modifies this
      ensures Valid() && Content() == Trimmed(old(Content()))
    {
      TrimFront();
      TrimBack();
    }

    method TrimFront()
      requires Valid()
      modifies this
      ensures Valid() && Content() == TrimmedLeft(old(Content()))
    {
      ghost var goal := TrimmedLeft(Content());
      while len != 0 && IsBlank(text[data])
        invariant Valid() && TrimmedLeft(Content()) == goal
        decreases len
      {
        BlankInFront(text, data, len);
        data, len := data + 1, len - 1;
      }
      NoBlankInFront(text, data, len);
    }

    method TrimBack()
      requires Valid()
      modifies this
      ensures Valid() && Content() == TrimmedRight(old(Content()))
    {
      ghost var goal := TrimmedRight(Content());
      while len != 0 && IsBlank(text[data + len - 1])
        invariant Valid() && TrimmedRight(Content()) == goal
        decreases len
      {
        BlankBehind(text, data, len);
        len := len - 1;
      }
      NoBlankBehind(text, data, len);
    }
  }

  lemma BlankInFront(text: string, data: nat, len: nat)
    requires data + len <= |text| && len > 0 && IsBlank(text[data])
    ensures TrimmedLeft(text[data..data + len]) == TrimmedLeft(text[data + 1..data + len])
  {
    assert text[data..data + len][0] == text[data] && text[data..data + len][1..] == text[data + 1..data + len];
  }

  lemma NoBlankInFront(text: string, data: nat, len: nat)
    requires data + len <= |text| && (len == 0 || !IsBlank(text[data]))
    ensures TrimmedLeft(text[data..data + len]) == text[data..data + len]
  {
    assert len > 0 ==> text[data..data + len][0] == text[data];
  }

  lemma BlankBehind(text: string, data: nat, len: nat)
    requires data + len <= |text| && len > 0 && IsBlank(text[data + len - 1])
    ensures TrimmedRight(text[data..data + len]) == TrimmedRight(text[data..data + len - 1])
  {
    var s := text[data..data + len];
    assert s[len - 1] == text[data + len - 1] && s[..len - 1] == text[data..data + len - 1];
  }

  lemma NoBlankBehind(text: string, data: nat, len: nat)
    requires data + len <= |text| && (len == 0 || !IsBlank(text[data + len - 1]))
    ensures TrimmedRight(text[data..data + len]) == text[data..data + len]
  {
    assert len > 0 ==> text[data..data + len][len - 1] == text[data + len - 1];
  }

  predicate IsBlank(c: char) {
    c == ' ' || c == '\t'
  }

  function TrimmedLeft(s: string): string {
    if s != "" && IsBlank(s[0]) then TrimmedLeft(s[1..]) else s
  }

  function TrimmedRight(s: string): string {
    if s != "" && IsBlank(s[|s| - 1]) then TrimmedRight(s[..|s| - 1]) else s
  }

  function Trimmed(s: string): string {
    TrimmedRight(TrimmedLeft(s))
  }

  /** What trimming leaves is what lies between the blanks at both ends. */
  lemma TrimmedIsCore(s: string, i: nat, j: nat)
    requires i <= j <= |s|
    requires forall k :: 0 <= k < i || j <= k < |s| ==> IsBlank(s[k])
    requires i < j ==> !IsBlank(s[i]) && !IsBlank(s[j - 1])
    ensures Trimmed(s) == s[i..j]
  {
    if i == j {
      BlankVanishes(s);
    } else {
      LeftCore(s, i);
      assert s[i..][j - i - 1] == s[j - 1];
      RightCore(s[i..], j - i);
      assert s[i..][..j - i] == s[i..j];
    }
  }

  lemma {:induction false} BlankVanishes(s: string)
    requires forall k :: 0 <= k < |s| ==> IsBlank(s[k])
    ensures TrimmedLeft(s) == ""
  {
    if s != "" { BlankVanishes(s[1..]); }
  }

  lemma {:induction false} LeftCore(s: string, i: nat)
    requires i < |s| && !IsBlank(s[i]) && forall k :: 0 <= k < i ==> IsBlank(s[k])
    ensures TrimmedLeft(s) == s[i..]
  {
    if i > 0 { LeftCore(s[1..], i - 1); }
  }

  lemma {:induction false} RightCore(s: string, j: nat)
    requires 0 < j <= |s| && !IsBlank(s[j - 1]) && forall k :: j <= k < |s| ==> IsBlank(s[k])
    ensures TrimmedRight(s) == s[..j]
  {
    if j < |s| {
      RightCore(s[..|s| - 1], j);
      assert s[..|s| - 1][..j] == s[..j];
    }
  }

  // ----- cutting at separators

  /** Cuts at the first separator. Either part may be the piece that is cut. */
  method Split(left: StringPiece, right: StringPiece, s: StringPiece, sep: char) returns (found: bool)
    requires s.Valid() && left != right
    modifies left, right
    ensures found <==> sep in old(s.Content())
    ensures found ==> left.Valid() && right.Valid()
    ensures found ==> old(s.Content()) == left.Content() + [sep] + right.Content() && sep !in left.Content()
    ensures !found ==> unchanged(left) && unchanged(right)
  {
    ghost var content := s.Content();
    var p := IndexOf(s.text[s.data..s.data + s.len], sep);
    if p == s.len {
      return false;
    }
    var text, data, len := s.text, s.data, s.len;
    left.text, left.data, left.len := text, data, p;
    right.text, right.data, right.len := text, data + left.len + 1, len - left.len - 1;
    CutPiece(text, data, len, sep);
    return true;
  }

  lemma CutPiece(text: string, data: nat, len: nat, sep: char)
    requires data + len <= |text| && IndexOf(text[data..data + len], sep) < len
    ensures var s := text[data..data + len]; var p := IndexOf(s, sep);
      s == text[data..data + p] + [sep] + text[data + p + 1..data + len] && sep !in text[data..data + p]
  {
    var s := text[data..data + len];
    var p := IndexOf(s, sep);
    assert text[data..data + p] == s[..p] && text[data + p + 1..data + len] == s[p + 1..];
    assert s == s[..p] + [s[p]] + s[p + 1..];
  }

  /** The entries that repeated reading yields. */
  function Entries(s: string, sep: char): seq<string> {
    var i := IndexOf(s, sep);
    if s == "" then []
    else if i == |s| then [s]
    else [s[..i]] + Entries(s[i + 1..], sep)
  }

  function DropEmptyLast(pieces: seq<string>): seq<string> {
    if pieces != [] && pieces[|pieces| - 1] == "" then pieces[..|pieces| - 1] else pieces
  }

  /** They are the pieces between separators, without an empty last one. */
  lemma {:induction false} EntriesArePieces(s: string, sep: char)
    ensures Entries(s, sep) == DropEmptyLast(AsciiText.Split(s, sep))
    decreases |s|
  {
    var i := IndexOf(s, sep);
    if s != "" && i < |s| {
      var rest := AsciiText.Split(s[i + 1..], sep);
      EntriesArePieces(s[i + 1..], sep);
      DropKeepsFirst(s[..i], rest);
    }
  }

  lemma DropKeepsFirst(first: string, rest: seq<string>)
    requires rest != []
    ensures DropEmptyLast([first] + rest) == [first] + DropEmptyLast(rest)
  {
    var all := [first] + rest;
    assert all[|all| - 1] == rest[|rest| - 1];
    assert all[..|all| - 1] == [first] + rest[..|rest| - 1];
  }

  method GetDelimited(s: StringPiece, out: StringPiece, sep: char) returns (more: bool)
    requires s.Valid() && s != out
    modifies s, out
    ensures s.Valid() && more == (old(s.Content()) != "")
    ensures more ==> out.Valid() && Entries(old(s.Content()), sep) == [out.Content()] + Entries(s.Content(), sep)
    ensures more ==> s.len < old(s.len)
    ensures !more ==> unchanged(s) && unchanged(out)
  {
    ghost var content := s.Content();
    if s.len == 0 {
      return false;
    }
    var found := Split(out, s, s, sep);
    if !found {
      out.Assign(s);
      assert IndexOf(content, sep) == |content|;
      s.data := s.data + s.len;
      s.len := 0;
    } else {
      IndexOfUnique(content, sep, |out.Content()|);
      assert content[..|out.Content()|] == out.Content() && content[|out.Content()| + 1..] == s.Content();
    }
    return true;
  }

  /** Membership in a list separated by spaces. */
  method HasListItem(list: StringPiece, item: string) returns (r: bool)
    requires list.Valid()
    ensures r <==> item in DropEmptyLast(AsciiText.Split(list.Content(), ' '))
  {
    EntriesArePieces(list.Content(), ' ');
    var remaining := new StringPiece("");
    var feature := new StringPiece("");
    remaining.Assign(list);
    var more := GetDelimited(remaining, feature, ' ');
    while more
      invariant remaining.Valid() && fresh(remaining) && fresh(feature) && remaining != feature
      invariant more ==> feature.Valid()
      invariant item in Entries(list.Content(), ' ') <==>
        more && (item == feature.Content() || item in Entries(remaining.Content(), ' '))
      decreases more, remaining.len
    {
      var same := feature.Equals(item);
      if same {
        return true;
      }
      more := GetDelimited(remaining, feature, ' ');
    }
    return false;
  }

  /** The line has a key, before its first colon, that is the field. */
  predicate Names(line: string, field: string) {
    ':' in line && Trimmed(line[..IndexOf(line, ':')]) == field
  }

  function ValueOf(line: string): string
    requires ':' in line
  {
    Trimmed(line[IndexOf(line, ':') + 1..])
  }

  function Lines(text: string): seq<string> {
    DropEmptyLast(AsciiText.Split(text, '\n'))
  }

  predicate IsFirst(lines: seq<string>, k: nat, field: string) {
    k < |lines| && Names(lines[k], field) && forall j :: 0 <= j < k ==> !Names(lines[j], field)
  }

  /** `v` is the trimmed value of the first line that names the field. */
  ghost predicate FirstValue(lines: seq<string>, field: string, v: string) {
    exists k: nat :: IsFirst(lines, k, field) && v == ValueOf(lines[k])
  }

  /** The value of the first line that names the field; `out` may be the text that is searched. */
  method ExtractCpuinfoField(out: StringPiece, input: StringPiece, field: string) returns (found: bool)
    requires input.Valid()
    modifies out
    ensures found <==> exists line :: line in old(Lines(input.Content())) && Names(line, field)
    ensures found ==> out.Valid() && FirstValue(old(Lines(input.Content())), field, out.Content())
    ensures !found ==> unchanged(out)
  {
    ghost var lines := Lines(input.Content());
    EntriesArePieces(input.Content(), '\n');
    var remaining := new StringPiece("");
    var line := new StringPiece("");
    remaining.Assign(input);
    ghost var k := 0;
    var more := GetDelimited(remaining, line, '\n');
    while more
      invariant remaining.Valid() && fresh(remaining) && fresh(line) && remaining != line && unchanged(out)
      invariant more ==> line.Valid()
      invariant k <= |lines| && forall j :: 0 <= j < k ==> !Names(lines[j], field)
      invariant lines[k..] == if more then [line.Content()] + Entries(remaining.Content(), '\n') else []
      decreases more, remaining.len
    {
      FirstOfRest(lines, k, line.Content(), Entries(remaining.Content(), '\n'));
      var value := FieldOfLine(line, field);
      if value.Some? {
        assert IsFirst(lines, k, field) && lines[k] in lines;
        out.Assign(value.value);
        return true;
      }
      k := k + 1;
      more := GetDelimited(remaining, line, '\n');
    }
    return false;
  }

  lemma FirstOfRest(lines: seq<string>, k: nat, line: string, rest: seq<string>)
    requires k <= |lines| && lines[k..] == [line] + rest
    ensures k < |lines| && lines[k] == line && lines[k + 1..] == rest
  {
    assert lines[k] == lines[k..][0] && lines[k + 1..] == lines[k..][1..];
  }

  /** The body of the loop: the trimmed value, if the line names the field. */
  method FieldOfLine(line: StringPiece, field: string) returns (r: Option<StringPiece>)
    requires line.Valid()
    ensures r.Some? <==> Names(line.Content(), field)
    ensures r.Some? ==> fresh(r.value) && r.value.Valid() && r.value.Content() == ValueOf(line.Content())
  {
    ghost var content := line.Content();
    var key := new StringPiece("");
    var value := new StringPiece("");
    var found := Split(key, value, line, ':');
    if !found {
      return None;
    }
    IndexOfUnique(content, ':', |key.Content()|);
    assert content[..|key.Content()|] == key.Content() && content[|key.Content()| + 1..] == value.Content();
    key.Trim();
    var same := key.Equals(field);
    if same {
      value.Trim();
      return Some(value);
    }
    return None;
  }

  // ----- a written-out line

  predicate Blanks(s: string) {
    forall i :: 0 <= i < |s| ==> s[i] == ' ' || s[i] == '\t'
  }

  /** No blank at either end. */
  predicate Core(s: string) {
    s != "" ==> s[0] != ' ' && s[0] != '\t' && s[|s| - 1] != ' ' && s[|s| - 1] != '\t'
  }

  lemma TrimmedBetween(a: string, s: string, b: string)
    requires Blanks(a) && Core(s) && Blanks(b)
    ensures Trimmed(a + s + b) == s
  {
    var t := a + s + b;
    if s == "" {
      forall k | 0 <= k < |t|
        ensures IsBlank(t[k])
      {
        if k < |a| { assert t[k] == a[k]; } else { assert t[k] == b[k - |a|]; }
      }
      TrimmedIsCore(t, 0, 0);
      assert t[0..0] == "";
    } else {
      forall k | 0 <= k < |a| || |a| + |s| <= k < |t|
        ensures IsBlank(t[k])
      {
        if k < |a| { assert t[k] == a[k]; } else { assert t[k] == b[k - |a| - |s|]; }
      }
      assert t[|a|] == s[0] && t[|a| + |s| - 1] == s[|s| - 1];
      TrimmedIsCore(t, |a|, |a| + |s|);
      assert t[|a|..|a| + |s|] == s;
    }
  }

  /** A line of blanks, key, blanks, a colon, blanks, value and blanks names the field exactly when the key
      is the field, and its value is the value, colons in it included. */
  lemma LineMeans(a: string, key: string, b: string, c: string, value: string, d: string, field: string)
    requires Blanks(a) && Core(key) && ':' !in key && Blanks(b) && Blanks(c) && Core(value) && Blanks(d)
    ensures var line := (a + key + b) + ":" + (c + value + d);
      (Names(line, field) <==> field == key) && ':' in line && ValueOf(line) == value
  {
    var left, right := a + key + b, c + value + d;
    var line := left + ":" + right;
    forall k | 0 <= k < |left|
      ensures left[k] != ':'
    {
      if k < |a| { assert left[k] == a[k]; }
      else if k < |a| + |key| { assert left[k] == key[k - |a|]; }
      else { assert left[k] == b[k - |a| - |key|]; }
    }
    assert line[|left|] == ':' && forall k :: 0 <= k < |left| ==> line[k] == left[k];
    IndexOfUnique(line, ':', |left|);
    assert line[..|left|] == left && line[|left| + 1..] == right;
    TrimmedBetween(a, key, b);
    TrimmedBetween(c, value, d);
  }

  /** A line without a colon names no field. */
  lemma NoColonNoName(line: string, field: string)
    requires ':' !in line
    ensures !Names(line, field)
  {}
}
