/** ASCII string helpers that the certificate code relies on: case folding, splitting and joining.
    The repository calls these through `string_util`, whose source is not part of this model; the
    definitions below are the usual ASCII ones. */
module AsciiText {

  function Lower(c: char): (r: char)
    ensures r == '.' <==> c == '.'
    ensures r == '*' <==> c == '*'
    ensures r == '@' <==> c == '@'
  {
    if 'A' <= c <= 'Z' then (c as int + 32) as char else c
  }

  function LowerAll(s: string): (r: string)
    ensures |r| == |s|
  {
    if s == "" then "" else [Lower(s[0])] + LowerAll(s[1..])
  }

  lemma {:induction false} LowerAt(s: string, i: nat)
    requires i < |s|
    ensures LowerAll(s)[i] == Lower(s[i])
  {
    if i > 0 { LowerAt(s[1..], i - 1); }
  }

  predicate IsEqualNoCase(a: string, b: string) {
    LowerAll(a) == LowerAll(b)
  }

  predicate EndsWithNoCase(s: string, suffix: string) {
    if |s| > |suffix| then EndsWithNoCase(s[1..], suffix) else IsEqualNoCase(s, suffix)
  }

  // ----- what case folding means

  /** One character, or the two cases of one letter. */
  predicate SameLetter(x: char, y: char) {
    || x == y
    || ('A' <= x <= 'Z' && y as int == x as int - 'A' as int + 'a' as int)
    || ('A' <= y <= 'Z' && x as int == y as int - 'A' as int + 'a' as int)
  }

  predicate SameLetters(a: string, b: string) {
    |a| == |b| && forall i :: 0 <= i < |a| ==> SameLetter(a[i], b[i])
  }

  lemma LowerMeans(x: char, y: char)
    ensures Lower(x) == Lower(y) <==> SameLetter(x, y)
  {}

  /** Equality without case is equality letter by letter, up to the case of letters. */
  lemma {:induction false} EqualNoCaseMeans(a: string, b: string)
    ensures IsEqualNoCase(a, b) <==> SameLetters(a, b)
  {
    if |a| == |b| {
      if SameLetters(a, b) {
        forall i | 0 <= i < |a|
          ensures LowerAll(a)[i] == LowerAll(b)[i]
        {
          LowerAt(a, i);
          LowerAt(b, i);
          LowerMeans(a[i], b[i]);
        }
      }
      if IsEqualNoCase(a, b) {
        forall i | 0 <= i < |a|
          ensures SameLetter(a[i], b[i])
        {
          LowerAt(a, i);
          LowerAt(b, i);
          LowerMeans(a[i], b[i]);
        }
      }
    }
  }

  /** Ending without case is equality without case of as many last letters. */
  lemma EndsWithNoCaseMeans(s: string, suffix: string)
    ensures EndsWithNoCase(s, suffix) <==> |suffix| <= |s| && SameLetters(s[|s| - |suffix|..], suffix)
  {
    if |suffix| <= |s| {
      var front, back := s[..|s| - |suffix|], s[|s| - |suffix|..];
      assert s == front + back;
      EndsWithParts(front, back, suffix);
      EqualNoCaseMeans(back, suffix);
    }
  }

  /** What is in front of the last characters plays no part. */
  lemma {:induction false} EndsWithParts(front: string, back: string, suffix: string)
    requires |back| == |suffix|
    ensures EndsWithNoCase(front + back, suffix) <==> IsEqualNoCase(back, suffix)
  {
    if front == "" {
      assert front + back == back;
    } else {
      assert (front + back)[1..] == front[1..] + back;
      EndsWithParts(front[1..], back, suffix);
    }
  }

  /** Position of the first `c`, or the length of `s` when there is none. */
  function IndexOf(s: string, c: char): (i: nat)
    ensures i <= |s|
    ensures i < |s| ==> s[i] == c
    ensures forall j :: 0 <= j < i ==> s[j] != c
  {
    IndexFrom(s, c, 0)
  }

  function IndexFrom(s: string, c: char, from: nat): (i: nat)
    requires from <= |s|
    ensures from <= i <= |s|
    ensures i < |s| ==> s[i] == c
    ensures forall j :: from <= j < i ==> s[j] != c
    decreases |s| - from
  {
    if from == |s| || s[from] == c then from else IndexFrom(s, c, from + 1)
  }

  lemma IndexOfUnique(s: string, c: char, i: nat)
    requires i < |s| && s[i] == c && forall j :: 0 <= j < i ==> s[j] != c
    ensures IndexOf(s, c) == i
  {}

  /** All pieces between separators, empty pieces included; never the empty list. */
  function Split(s: string, sep: char): (pieces: seq<string>)
    ensures |pieces| > 0
    decreases |s|
  {
    var i := IndexOf(s, sep);
    if i == |s| then [s] else [s[..i]] + Split(s[i + 1..], sep)
  }

  /** `SplitString` yields no pieces at all for the empty string. */
  function SplitString(s: string, sep: char): seq<string> {
    if s == "" then [] else Split(s, sep)
  }

  function Join(pieces: seq<string>, sep: char): string
    requires |pieces| > 0
  {
    if |pieces| == 1 then pieces[0] else pieces[0] + [sep] + Join(pieces[1..], sep)
  }

  /** The pieces a string splits into determine it. */
  lemma {:induction false} JoinSplit(s: string, sep: char)
    ensures Join(Split(s, sep), sep) == s
    decreases |s|
  {
    var i := IndexOf(s, sep);
    if i < |s| {
      CutAtFirst(s, sep);
      JoinSplit(s[i + 1..], sep);
      JoinSplitParts(s[..i], s[i + 1..], sep);
    }
  }

  lemma CutAtFirst(s: string, sep: char)
    requires IndexOf(s, sep) < |s|
    ensures var i := IndexOf(s, sep); sep !in s[..i] && s == s[..i] + [sep] + s[i + 1..]
  {}

  lemma JoinSplitParts(h: string, t: string, sep: char)
    requires sep !in h && Join(Split(t, sep), sep) == t
    ensures Join(Split(h + [sep] + t, sep), sep) == h + [sep] + t
  {
    SplitFirst(h, t, sep);
    JoinInFront(h, Split(t, sep), sep);
  }

  lemma JoinInFront(piece: string, rest: seq<string>, sep: char)
    requires rest != []
    ensures Join([piece] + rest, sep) == piece + [sep] + Join(rest, sep)
  {
    assert ([piece] + rest)[1..] == rest;
  }

  /** A separator cuts the list of pieces exactly where it cuts the string. */
  lemma {:induction false} SplitAppend(p: string, q: string, sep: char)
    ensures Split(p + [sep] + q, sep) == Split(p, sep) + Split(q, sep)
    decreases |p|
  {
    var j := IndexOf(p, sep);
    if j == |p| {
      SplitFirst(p, q, sep);
      SplitNone(p, sep);
    } else {
      var h, r := p[..j], p[j + 1..];
      SplitAppend(r, q, sep);
      SplitFirst(h, r, sep);
      SplitFirst(h, r + [sep] + q, sep);
      AroundSeparator(p, j, sep, q);
      FirstThenBoth(h, Split(r, sep), Split(q, sep));
    }
  }

  lemma AroundSeparator(p: string, j: nat, sep: char, q: string)
    requires j < |p| && p[j] == sep
    ensures p == p[..j] + [sep] + p[j + 1..]
    ensures p + [sep] + q == p[..j] + [sep] + (p[j + 1..] + [sep] + q)
  {}

  lemma FirstThenBoth(h: string, a: seq<string>, b: seq<string>)
    ensures [h] + (a + b) == ([h] + a) + b
  {}

  lemma SplitFirst(h: string, t: string, sep: char)
    requires sep !in h
    ensures Split(h + [sep] + t, sep) == [h] + Split(t, sep)
  {
    var s := h + [sep] + t;
    IndexOfUnique(s, sep, |h|);
    assert s[..|h|] == h && s[|h| + 1..] == t;
  }

  lemma {:induction false} JoinAppend(a: seq<string>, b: seq<string>, sep: char)
    requires |a| > 0 && |b| > 0
    ensures Join(a + b, sep) == Join(a, sep) + [sep] + Join(b, sep)
  {
    if |a| == 1 {
      assert (a + b)[1..] == b;
    } else {
      assert (a + b)[1..] == a[1..] + b;
      JoinAppend(a[1..], b, sep);
    }
  }

  /** Joining separator-free pieces loses nothing. */
  lemma {:induction false} SplitJoin(pieces: seq<string>, sep: char)
    requires |pieces| > 0 && forall p :: p in pieces ==> sep !in p
    ensures Split(Join(pieces, sep), sep) == pieces
  {
    assert sep !in pieces[0];
    SplitNone(pieces[0], sep);
    if |pieces| > 1 {
      SplitAppend(pieces[0], Join(pieces[1..], sep), sep);
      SplitJoin(pieces[1..], sep);
    }
  }

  lemma SplitNone(s: string, sep: char)
    requires sep !in s
    ensures Split(s, sep) == [s]
  {
    assert IndexOf(s, sep) == |s|;
  }

  lemma NoDotLower(s: string)
    requires '.' !in s
    ensures '.' !in LowerAll(s)
  {
    forall i | 0 <= i < |s|
      ensures LowerAll(s)[i] != '.'
    {
      LowerAt(s, i);
    }
  }

  lemma {:induction false} LowerConcat(a: string, b: string)
    ensures LowerAll(a + b) == LowerAll(a) + LowerAll(b)
  {
    if a == "" {
      assert a + b == b;
    } else {
      assert (a + b)[1..] == a[1..] + b;
      LowerConcat(a[1..], b);
    }
  }

  lemma {:induction false} LowerDrop(s: string, i: nat)
    requires i <= |s|
    ensures LowerAll(s[i..]) == LowerAll(s)[i..]
  {
    LowerConcat(s[..i], s[i..]);
    assert s == s[..i] + s[i..];
  }

  lemma LowerThree(a: string, x: char, b: string)
    ensures LowerAll(a + [x] + b) == LowerAll(a) + [Lower(x)] + LowerAll(b)
  {
    LowerConcat(a + [x], b);
    LowerConcat(a, [x]);
    assert [x][1..] == "";
  }
}
