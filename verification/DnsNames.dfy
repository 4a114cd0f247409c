/** dNSName matching of name constraints (RFC 5280, section 4.2.1.10): the byte-level suffix test of
    `DNSNameMatches`, and its meaning as a relation between lists of labels. */
module DnsNames {
  import opened AsciiText

  datatype WildcardMatchType = PartialMatch | FullMatch

  /** Drops one trailing dot, so that absolute and relative names compare alike. */
  function TrimDot(s: string): string {
    if s != "" && s[|s| - 1] == '.' then s[..|s| - 1] else s
  }

  predicate DNSNameMatches(name: string, dnsConstraint: string, mode: WildcardMatchType) {
    if dnsConstraint == "" then true
    else
      var n, c := TrimDot(name), TrimDot(dnsConstraint);
      if mode.PartialMatch? && |n| > 2 && n[0] == '*' && n[1] == '.' && IndexOf(c, '.') < |c|
         && IsEqualNoCase(n[2..], c[IndexOf(c, '.') + 1..]) then true
      else if !EndsWithNoCase(n, c) then false
      else if |n| == |c| then true
      else
        var rest := if c != "" && c[0] == '.' then c[1..] else c;
        |n| > |rest| && n[|n| - |rest| - 1] == '.'
  }

  /** `IsPermittedDNSName` on its two lists of subtrees; `constrained` says whether the permitted
      subtrees hold any dNSName at all. */
  predicate PermittedDNSName(name: string, excluded: seq<string>, permitted: seq<string>, constrained: bool) {
    && (forall i :: 0 <= i < |excluded| ==> !DNSNameMatches(name, excluded[i], PartialMatch))
    && (constrained ==> exists i :: 0 <= i < |permitted| && DNSNameMatches(name, permitted[i], FullMatch))
  }

  // ----- the meaning: lists of labels

  /** The labels of a name, lower-cased, without the empty label of a trailing dot. */
  function Labels(s: string): (ls: seq<string>)
    ensures |ls| > 0
  {
    Split(LowerAll(TrimDot(s)), '.')
  }

  predicate IsSuffix(a: seq<string>, b: seq<string>) {
    |a| <= |b| && b[|b| - |a|..] == a
  }

  predicate LeadingDot(c: string) {
    TrimDot(c) != "" && TrimDot(c)[0] == '.'
  }

  /** The labels a name must end with. */
  function Required(c: string): seq<string> {
    if LeadingDot(c) then Labels(c)[1..] else Labels(c)
  }

  /** A name lies in a subtree when the constraint's labels end the name's. A constraint that starts
      with a dot leaves out its own apex, the empty constraint leaves out nothing. */
  predicate InSubtree(labels: seq<string>, c: string) {
    if c == "" then true
    else IsSuffix(Required(c), labels) && (LeadingDot(c) ==> labels != Required(c))
  }

  /** `c` ends `n`, and starts where a label of `n` starts. */
  predicate EndsAtLabel(n: string, c: string) {
    n == c || (|n| > |c| && n == n[..|n| - |c| - 1] + ['.'] + c)
  }

  lemma EndsAtLabelParts(front: string, x: char, back: string, c: string)
    requires |back| == |c|
    ensures EndsAtLabel(front + [x] + back, c) <==> x == '.' && back == c
  {
    var n := front + [x] + back;
    assert n[..|front|] == front && n[|front|] == x && n[|front| + 1..] == back;
    var m := front + ['.'] + c;
    assert m[|front|] == '.' && m[|front| + 1..] == c;
  }

  /** A string ends another at a label boundary exactly when its labels end the other's. */
  lemma SuffixByLabels(n: string, c: string)
    ensures EndsAtLabel(n, c) <==> IsSuffix(Split(c, '.'), Split(n, '.'))
  {
    if EndsAtLabel(n, c) && n != c {
      SplitAppend(n[..|n| - |c| - 1], c, '.');
    }
    if IsSuffix(Split(c, '.'), Split(n, '.')) {
      LabelsEndString(n, c);
    }
  }

  lemma LabelsEndString(n: string, c: string)
    requires IsSuffix(Split(c, '.'), Split(n, '.'))
    ensures EndsAtLabel(n, c)
  {
    var ln, lc := Split(n, '.'), Split(c, '.');
    JoinSplit(n, '.');
    JoinSplit(c, '.');
    if |lc| < |ln| {
      var front := ln[..|ln| - |lc|];
      assert ln == front + lc;
      JoinAppend(front, lc, '.');
      EndsAtLabelParts(Join(front, '.'), '.', c, c);
    } else {
      assert ln == lc;
    }
  }

  lemma LeadingDotLabels(c: string)
    requires LeadingDot(c)
    ensures Labels(c)[0] == "" && |Labels(c)| > 1
    ensures Labels(c)[1..] == Split(LowerAll(TrimDot(c)[1..]), '.')
  {
    var t := TrimDot(c);
    LowerDrop(t, 1);
    assert LowerAll(t) == "" + ['.'] + LowerAll(t[1..]);
    SplitAppend("", LowerAll(t[1..]), '.');
    SplitNone("", '.');
  }

  /** The suffix test decides the label relation, for every name and every constraint. */
  lemma FullMatchIsLabelSuffix(name: string, c: string)
    ensures DNSNameMatches(name, c, FullMatch) <==> InSubtree(Labels(name), c)
  {
    if c == "" {
    } else if LeadingDot(c) {
      LeadingDotLabels(c);
      LeadingDotMatch(TrimDot(name), TrimDot(c));
      LeadingDotSuffix(TrimDot(name), TrimDot(c));
    } else {
      PlainMatch(TrimDot(name), TrimDot(c));
      SuffixByLabels(LowerAll(TrimDot(name)), LowerAll(TrimDot(c)));
    }
  }

  /** The last three tests of the matcher, on trimmed text. */
  predicate SuffixTest(n: string, c: string) {
    EndsWithNoCase(n, c) &&
    (|n| == |c| ||
     (var rest := if c != "" && c[0] == '.' then c[1..] else c;
      |n| > |rest| && n[|n| - |rest| - 1] == '.'))
  }

  lemma PlainMatch(n: string, c: string)
    requires c == "" || c[0] != '.'
    ensures SuffixTest(n, c) <==> EndsAtLabel(LowerAll(n), LowerAll(c))
  {
    if |c| < |n| {
      var m := |n| - |c| - 1;
      CutAround(n, m);
      PlainMatchParts(n[..m], n[m], n[m + 1..], c);
    }
  }

  lemma CutAround(n: string, m: nat)
    requires m < |n|
    ensures n == n[..m] + [n[m]] + n[m + 1..]
  {}

  lemma PlainMatchParts(front: string, x: char, back: string, c: string)
    requires |back| == |c| && (c == "" || c[0] != '.')
    ensures SuffixTest(front + [x] + back, c) <==> EndsAtLabel(LowerAll(front + [x] + back), LowerAll(c))
  {
    EndsWithParts(front + [x], back, c);
    LowerThree(front, x, back);
    EndsAtLabelParts(LowerAll(front), Lower(x), LowerAll(back), LowerAll(c));
    assert (front + [x] + back)[|front|] == x;
  }

  lemma LeadingDotMatch(n: string, c: string)
    requires c != "" && c[0] == '.'
    ensures SuffixTest(n, c) <==> EndsWithNoCase(n, c)
  {
    if |c| <= |n| {
      var m := |n| - |c|;
      assert n == n[..m] + n[m..];
      EndsWithParts(n[..m], n[m..], c);
      LowerAt(n[m..], 0);
      LowerAt(c, 0);
    }
  }

  lemma LeadingDotSuffix(n: string, t: string)
    requires t != "" && t[0] == '.'
    ensures EndsWithNoCase(n, t) <==>
            IsSuffix(Split(LowerAll(t[1..]), '.'), Split(LowerAll(n), '.'))
            && Split(LowerAll(n), '.') != Split(LowerAll(t[1..]), '.')
  {
    LeadingDotEnd(n, t);
    SuffixByLabels(LowerAll(n), LowerAll(t[1..]));
    JoinSplit(LowerAll(n), '.');
    JoinSplit(LowerAll(t[1..]), '.');
  }

  lemma LeadingDotEnd(n: string, t: string)
    requires t != "" && t[0] == '.'
    ensures EndsWithNoCase(n, t) <==> EndsAtLabel(LowerAll(n), LowerAll(t[1..])) && LowerAll(n) != LowerAll(t[1..])
  {
    if |t| <= |n| {
      var m := |n| - |t|;
      CutAround(n, m);
      LeadingDotParts(n[..m], n[m], n[m + 1..], t[1..]);
      assert t == ['.'] + t[1..];
    }
  }

  lemma LeadingDotParts(front: string, x: char, back: string, rest: string)
    requires |back| == |rest|
    ensures EndsWithNoCase(front + [x] + back, ['.'] + rest) <==>
      EndsAtLabel(LowerAll(front + [x] + back), LowerAll(rest))
    ensures |LowerAll(front + [x] + back)| > |LowerAll(rest)|
  {
    assert front + [x] + back == front + ([x] + back);
    EndsWithParts(front, [x] + back, ['.'] + rest);
    LowerThree("", x, back);
    LowerThree("", '.', rest);
    assert "" + [x] + back == [x] + back && "" + ['.'] + rest == ['.'] + rest;
    assert LowerAll("") + [Lower(x)] == [Lower(x)] && LowerAll("") + [Lower('.')] == ['.'];
    HeadAndTail(Lower(x), LowerAll(back), '.', LowerAll(rest));
    LowerThree(front, x, back);
    EndsAtLabelParts(LowerAll(front), Lower(x), LowerAll(back), LowerAll(rest));
  }

  lemma HeadAndTail(x: char, a: string, y: char, b: string)
    ensures [x] + a == [y] + b <==> x == y && a == b
  {
    assert ([x] + a)[0] == x && ([x] + a)[1..] == a && ([y] + b)[0] == y && ([y] + b)[1..] == b;
  }

  /** Non-empty labels. */
  ghost predicate PlainLabels(ls: seq<string>) {
    forall i :: 0 <= i < |ls| ==> ls[i] != "" && '.' !in ls[i]
  }

  function LowerEach(ls: seq<string>): (r: seq<string>)
    ensures |r| == |ls| && forall i :: 0 <= i < |r| ==> r[i] == LowerAll(ls[i])
  {
    seq(|ls|, i requires 0 <= i < |ls| => LowerAll(ls[i]))
  }

  /** For names and constraints made of non-empty labels, with or without a trailing dot, matching
      is "add zero or more labels on the left", or one or more after a leading dot, in any case. */
  lemma MatchOnLabelLists(ls: seq<string>, cs: seq<string>, nameDot: string, constraintDot: string, leading: bool)
    requires |ls| > 0 && |cs| > 0 && nameDot in ["", "."] && constraintDot in ["", "."]
    requires PlainLabels(ls) && PlainLabels(cs)
    ensures DNSNameMatches(Join(ls, '.') + nameDot, (if leading then "." else "") + Join(cs, '.') + constraintDot,
                           FullMatch)
       <==> IsSuffix(LowerEach(cs), LowerEach(ls)) && (leading ==> LowerEach(cs) != LowerEach(ls))
  {
    JoinedName(ls, nameDot);
    ListedConstraint(cs, constraintDot, leading);
    FullMatchIsLabelSuffix(Join(ls, '.') + nameDot, (if leading then "." else "") + Join(cs, '.') + constraintDot);
  }

  lemma ListedConstraint(cs: seq<string>, dot: string, leading: bool)
    requires |cs| > 0 && dot in ["", "."] && PlainLabels(cs)
    ensures var c := (if leading then "." else "") + Join(cs, '.') + dot;
      c != "" && LeadingDot(c) == leading && Required(c) == LowerEach(cs)
  {
    JoinedName(cs, dot);
    ConcatAssociates(if leading then "." else "", Join(cs, '.'), dot);
    ConstraintTail(Join(cs, '.') + dot, leading);
  }

  lemma ConcatAssociates(a: string, b: string, c: string)
    ensures a + b + c == a + (b + c)
  {}

  lemma ConstraintTail(tail: string, leading: bool)
    requires TrimDot(tail) != "" && TrimDot(tail)[0] != '.'
    ensures var c := (if leading then "." else "") + tail;
      c != "" && LeadingDot(c) == leading && Required(c) == Labels(tail)
  {
    if leading {
      DotInFront(tail);
    } else {
      assert "" + tail == tail;
    }
  }

  lemma DotInFront(c: string)
    requires TrimDot(c) != ""
    ensures LeadingDot("." + c) && Required("." + c) == Labels(c)
  {
    assert TrimDot("." + c) == "." + TrimDot(c);
    LeadingDotLabels("." + c);
    assert TrimDot("." + c)[1..] == TrimDot(c);
  }

  lemma JoinedName(ls: seq<string>, dot: string)
    requires |ls| > 0 && dot in ["", "."] && PlainLabels(ls)
    ensures var s := Join(ls, '.') + dot;
      s != "" && TrimDot(s) == Join(ls, '.') && TrimDot(s) != "" && TrimDot(s)[0] != '.' && Labels(s) == LowerEach(ls)
  {
    JoinEnds(ls);
    LowerJoin(ls);
    forall i | 0 <= i < |ls| ensures '.' !in LowerAll(ls[i]) {
      NoDotLower(ls[i]);
    }
    SplitJoin(LowerEach(ls), '.');
  }

  lemma {:induction false} LowerJoin(ls: seq<string>)
    requires |ls| > 0
    ensures LowerAll(Join(ls, '.')) == Join(LowerEach(ls), '.')
  {
    if |ls| > 1 {
      LowerJoin(ls[1..]);
      LowerConcat(ls[0], ['.']);
      LowerConcat(ls[0] + ['.'], Join(ls[1..], '.'));
      assert LowerEach(ls)[1..] == LowerEach(ls[1..]);
    }
  }

  lemma {:induction false} JoinEnds(ls: seq<string>)
    requires |ls| > 0 && PlainLabels(ls)
    ensures var s := Join(ls, '.'); s != "" && s[0] != '.' && s[|s| - 1] != '.'
  {
    var h := ls[0];
    assert h[0] != '.' && h[|h| - 1] != '.';
    if |ls| > 1 {
      JoinEnds(ls[1..]);
    }
  }

  /** Subtree containment is transitive for every constraint pair but one: the empty constraint holds
      every name, the name "" matches the constraint ".", and "." holds few names. */
  lemma TransitiveExactly(c1: string, c2: string)
    ensures (forall n :: DNSNameMatches(n, c1, FullMatch) && DNSNameMatches(c1, c2, FullMatch) ==>
      DNSNameMatches(n, c2, FullMatch))
       <==> !(c1 == "" && c2 == ".")
  {
    if c1 == "" && c2 == "." {
      RootHoldsNoHost();
      assert DNSNameMatches("a", "", FullMatch);
    } else {
      forall n | DNSNameMatches(n, c1, FullMatch) && DNSNameMatches(c1, c2, FullMatch)
        ensures DNSNameMatches(n, c2, FullMatch)
      {
        if c1 != "" { TransitiveFromNonEmpty(n, c1, c2); }
      }
    }
  }

  lemma RootHoldsNoHost()
    ensures DNSNameMatches("", ".", FullMatch) && !DNSNameMatches("a", ".", FullMatch)
  {
    assert TrimDot(".") == "" && TrimDot("a") == "a" && TrimDot("") == "";
    assert LowerAll("") == "" && "a"[1..] == "";
  }

  lemma TransitiveFromNonEmpty(n: string, c1: string, c2: string)
    requires c1 != "" && DNSNameMatches(n, c1, FullMatch) && DNSNameMatches(c1, c2, FullMatch)
    ensures DNSNameMatches(n, c2, FullMatch)
  {
    FullMatchIsLabelSuffix(n, c1);
    FullMatchIsLabelSuffix(c1, c2);
    FullMatchIsLabelSuffix(n, c2);
    if c2 != "" {
      RequiredShrinks(c1, c2);
      SuffixTransitive(Required(c2), Required(c1), Labels(n));
    }
  }

  /** A constraint inside a subtree requires at least what the subtree requires. */
  lemma RequiredShrinks(c1: string, c2: string)
    requires c1 != "" && c2 != "" && InSubtree(Labels(c1), c2)
    ensures IsSuffix(Required(c2), Required(c1))
    ensures LeadingDot(c2) ==> Required(c1) != Required(c2) || LeadingDot(c1)
  {
    if LeadingDot(c1) {
      LeadingDotLabels(c1);
      if !LeadingDot(c2) && Labels(c2)[0] == "" {
        NoLeadingDot(c2);
      }
      assert Labels(c1) == [""] + Required(c1);
      assert Required(c2) != Labels(c1);
      TailSuffix("", Required(c1), Required(c2));
    }
  }

  lemma TailSuffix(g: string, t: seq<string>, s: seq<string>)
    requires IsSuffix(s, [g] + t) && s != [g] + t
    ensures IsSuffix(s, t)
  {
    assert ([g] + t)[1 + |t| - |s|..] == t[|t| - |s|..];
  }

  lemma SuffixTransitive(a: seq<string>, b: seq<string>, c: seq<string>)
    requires IsSuffix(a, b) && IsSuffix(b, c)
    ensures IsSuffix(a, c)
  {
    assert c[|c| - |a|..] == b[|b| - |a|..];
  }

  /** Without a leading dot, the first label is empty only when it is the only one. */
  lemma NoLeadingDot(c: string)
    requires !LeadingDot(c) && Labels(c)[0] == ""
    ensures Labels(c) == [""]
  {}

  // ----- wildcards

  /** The name that puts label `l` in place of the wildcard in `*.x`. */
  function Expand(l: string, x: string): string {
    l + "." + x
  }

  function BaseLabels(x: string): seq<string> {
    if x == "" then [] else Labels(x)
  }

  lemma ExpansionLabels(l: string, x: string)
    requires '.' !in l
    ensures Labels(Expand(l, x)) == [LowerAll(l)] + BaseLabels(x)
  {
    if x == "" {
      assert TrimDot(Expand(l, x)) == l;
      NoDotLower(l);
      SplitNone(LowerAll(l), '.');
    } else {
      assert TrimDot(Expand(l, x)) == l + "." + TrimDot(x);
      LabelAndRest(l, TrimDot(x));
    }
  }

  lemma LabelsAfterFirstDot(c: string)
    ensures var t := TrimDot(c); var i := IndexOf(t, '.');
            if i < |t| then Labels(c) == [LowerAll(t[..i])] + Split(LowerAll(t[i + 1..]), '.')
            else Labels(c) == [LowerAll(t)]
  {
    var t := TrimDot(c);
    var i := IndexOf(t, '.');
    if i < |t| {
      LabelAndRest(t[..i], t[i + 1..]);
      assert t == t[..i] + "." + t[i + 1..];
    } else {
      NoDotLower(t);
      SplitNone(LowerAll(t), '.');
    }
  }

  lemma LabelAndRest(l: string, rest: string)
    requires '.' !in l
    ensures Split(LowerAll(l + "." + rest), '.') == [LowerAll(l)] + Split(LowerAll(rest), '.')
  {
    LowerThree(l, '.', rest);
    NoDotLower(l);
    SplitFirst(LowerAll(l), LowerAll(rest), '.');
  }

  /** What the partial test adds to the suffix test: the constraint is one label above the base. */
  lemma PartialMatchByLabels(x: string, c: string)
    requires x != "" && x != "."
    ensures DNSNameMatches(Expand("*", x), c, PartialMatch)
       <==> DNSNameMatches(Expand("*", x), c, FullMatch) || (c != "" && Labels(c)[1..] == Labels(x))
  {
    if c == "" { return; }
    var n, t := TrimDot(Expand("*", x)), TrimDot(c);
    assert n == "*." + TrimDot(x);
    assert n[2..] == TrimDot(x);
    LabelsAfterFirstDot(c);
    var i := IndexOf(t, '.');
    if i < |t| {
      assert Labels(c)[1..] == Split(LowerAll(t[i + 1..]), '.');
      JoinSplit(LowerAll(t[i + 1..]), '.');
      JoinSplit(LowerAll(TrimDot(x)), '.');
    }
  }

  /** A wildcard partially matches a constraint exactly when some expansion of it falls within. */
  lemma PartialMatchIsSomeExpansion(x: string, c: string)
    requires x != "" && x != "."
    ensures DNSNameMatches(Expand("*", x), c, PartialMatch)
       <==> exists l :: '.' !in l && DNSNameMatches(Expand(l, x), c, FullMatch)
  {
    PartialMatchByLabels(x, c);
    if DNSNameMatches(Expand("*", x), c, FullMatch) {
      assert '.' !in "*";
    } else if c != "" && Labels(c)[1..] == Labels(x) {
      var l := FirstLabelExpansion(x, c);
    }
    forall l | '.' !in l && DNSNameMatches(Expand(l, x), c, FullMatch)
      ensures DNSNameMatches(Expand("*", x), c, PartialMatch)
    {
      ExpansionMatch(l, x, c);
    }
  }

  /** An expansion that matches either already matched below the wildcard, or the constraint is a
      single label above the base. */
  lemma ExpansionMatch(l: string, x: string, c: string)
    requires '.' !in l && DNSNameMatches(Expand(l, x), c, FullMatch)
    ensures DNSNameMatches(Expand("*", x), c, FullMatch)
         || (c != "" && Labels(c) == [LowerAll(l)] + BaseLabels(x))
  {
    if c != "" {
      var h, t := LowerAll(l), BaseLabels(x);
      assert InSubtree([h] + t, c) by {
        ExpansionLabels(l, x);
        FullMatchIsLabelSuffix(Expand(l, x), c);
      }
      SuffixOfTail(h, "*", t, Required(c));
      if Required(c) != [h] + t {
        StarExpansion(x, c);
      }
    }
  }

  lemma StarExpansion(x: string, c: string)
    ensures DNSNameMatches(Expand("*", x), c, FullMatch) <==> InSubtree(["*"] + BaseLabels(x), c)
  {
    assert '.' !in "*" && LowerAll("*") == "*";
    ExpansionLabels("*", x);
    FullMatchIsLabelSuffix(Expand("*", x), c);
  }

  /** A proper suffix does not see the head. */
  lemma SuffixOfTail(h: string, g: string, t: seq<string>, s: seq<string>)
    requires IsSuffix(s, [h] + t)
    ensures s == [h] + t || (IsSuffix(s, [g] + t) && s != [g] + t)
  {
    if |s| <= |t| {
      assert ([h] + t)[1 + |t| - |s|..] == t[|t| - |s|..];
      assert ([g] + t)[1 + |t| - |s|..] == t[|t| - |s|..];
    }
  }

  /** A full match of a wildcard covers every expansion, unless the constraint spells the very same
      wildcard. */
  lemma FullMatchCoversExpansions(x: string, c: string)
    ensures (DNSNameMatches(Expand("*", x), c, FullMatch) ==> forall l :: '.' !in l ==>
      DNSNameMatches(Expand(l, x), c, FullMatch))
       <==> !IsEqualNoCase(TrimDot(c), TrimDot(Expand("*", x)))
  {
    if IsEqualNoCase(TrimDot(c), TrimDot(Expand("*", x))) {
      SpelledWildcard(x, c);
      assert '.' !in "a";
    } else if DNSNameMatches(Expand("*", x), c, FullMatch) {
      forall l | '.' !in l ensures DNSNameMatches(Expand(l, x), c, FullMatch) {
        CoversExpansion(l, x, c);
      }
    }
  }

  lemma SpelledWildcard(x: string, c: string)
    requires IsEqualNoCase(TrimDot(c), TrimDot(Expand("*", x)))
    ensures DNSNameMatches(Expand("*", x), c, FullMatch) && !DNSNameMatches(Expand("a", x), c, FullMatch)
  {
    var w := TrimDot(Expand("*", x));
    assert w[0] == '*' && LowerAll(TrimDot(c))[0] == '*';
    assert w[0..] == w;
    assert '.' !in "a" && '.' !in "*";
    ExpansionLabels("a", x);
    ExpansionLabels("*", x);
    FullMatchIsLabelSuffix(Expand("a", x), c);
    assert LowerAll("a")[0] == 'a' && LowerAll("*")[0] == '*';
    assert Labels(Expand("a", x))[0] != Labels(c)[0];
    assert |Labels(Expand("a", x))| == |Labels(c)|;
  }

  lemma CoversExpansion(l: string, x: string, c: string)
    requires '.' !in l && DNSNameMatches(Expand("*", x), c, FullMatch)
    requires !IsEqualNoCase(TrimDot(c), TrimDot(Expand("*", x)))
    ensures DNSNameMatches(Expand(l, x), c, FullMatch)
  {
    if c == "" { return; }
    assert '.' !in "*" && LowerAll("*") == "*";
    ExpansionLabels(l, x);
    ExpansionLabels("*", x);
    FullMatchIsLabelSuffix(Expand("*", x), c);
    FullMatchIsLabelSuffix(Expand(l, x), c);
    if !LeadingDot(c) && Labels(c) == Labels(Expand("*", x)) {
      JoinSplit(LowerAll(TrimDot(c)), '.');
      JoinSplit(LowerAll(TrimDot(Expand("*", x))), '.');
    }
    SuffixOfTail("*", LowerAll(l), BaseLabels(x), Required(c));
  }

  /** The partial test is only ever more eager, and differs from the full one on wildcards alone. */
  lemma PartialVersusFull(name: string, c: string)
    ensures DNSNameMatches(name, c, FullMatch) ==> DNSNameMatches(name, c, PartialMatch)
    ensures DNSNameMatches(name, c, PartialMatch) && !DNSNameMatches(name, c, FullMatch)
        ==> |name| > 2 && name[0] == '*' && name[1] == '.'
  {}

  predicate SpellsWildcard(c: string, x: string) {
    IsEqualNoCase(TrimDot(c), TrimDot(Expand("*", x)))
  }

  /** Every name the wildcard `*.x` can stand for is permitted. */
  ghost predicate AllExpansionsPermitted(x: string, excluded: seq<string>, permitted: seq<string>, constrained: bool) {
    forall l :: '.' !in l ==> PermittedDNSName(Expand(l, x), excluded, permitted, constrained)
  }

  /** When permitting a wildcard name is sound, for every base. The permitted subtrees must hold one that
      matches the wildcard without spelling it, if they constrain DNS names at all; and no excluded
      subtree may be one label above the base. The second part can fail only for the bases "" and ".",
      which the partial test does not treat as wildcards (see `PartialTestCoversBases`). */
  lemma WildcardSoundExactly(x: string, excluded: seq<string>, permitted: seq<string>, constrained: bool)
    requires PermittedDNSName(Expand("*", x), excluded, permitted, constrained)
    ensures AllExpansionsPermitted(x, excluded, permitted, constrained) <==>
      && (forall i :: 0 <= i < |excluded| ==> excluded[i] != "" ==> Labels(excluded[i])[1..] != BaseLabels(x))
      && (constrained ==> exists i :: 0 <= i < |permitted| && MatchesUnspelled(permitted[i], x))
  {
    if AllExpansionsPermitted(x, excluded, permitted, constrained) {
      NothingAboveBase(x, excluded, permitted, constrained);
      if constrained { SomeMatchUnspelled(x, excluded, permitted); }
    }
    if (forall i :: 0 <= i < |excluded| ==> excluded[i] != "" ==> Labels(excluded[i])[1..] != BaseLabels(x))
       && (constrained ==> exists i :: 0 <= i < |permitted| && MatchesUnspelled(permitted[i], x)) {
      forall l | '.' !in l ensures PermittedDNSName(Expand(l, x), excluded, permitted, constrained) {
        ExpansionPermitted(l, x, excluded, permitted, constrained);
      }
    }
  }

  predicate MatchesUnspelled(c: string, x: string) {
    DNSNameMatches(Expand("*", x), c, FullMatch) && !SpellsWildcard(c, x)
  }

  lemma NothingAboveBase(x: string, excluded: seq<string>, permitted: seq<string>, constrained: bool)
    requires AllExpansionsPermitted(x, excluded, permitted, constrained)
    ensures forall i :: 0 <= i < |excluded| ==> excluded[i] != "" ==> Labels(excluded[i])[1..] != BaseLabels(x)
  {
    forall i | 0 <= i < |excluded| && excluded[i] != "" ensures Labels(excluded[i])[1..] != BaseLabels(x) {
      if Labels(excluded[i])[1..] == BaseLabels(x) {
        var l := FirstLabelExpansion(x, excluded[i]);
        PartialVersusFull(Expand(l, x), excluded[i]);
        assert false;
      }
    }
  }

  /** A label longer than every permitted subtree is matched by one that also matches the wildcard. */
  lemma SomeMatchUnspelled(x: string, excluded: seq<string>, permitted: seq<string>)
    requires AllExpansionsPermitted(x, excluded, permitted, true)
    ensures exists i :: 0 <= i < |permitted| && MatchesUnspelled(permitted[i], x)
  {
    var l := seq(MaxLength(permitted) + 1, _ => 'a');
    assert '.' !in l;
    assert PermittedDNSName(Expand(l, x), excluded, permitted, true);
    var i :| 0 <= i < |permitted| && DNSNameMatches(Expand(l, x), permitted[i], FullMatch);
    LongLabelMatch(l, x, permitted[i]);
    if SpellsWildcard(permitted[i], x) {
      LongerThanSpelled(l, x, permitted[i]);
    }
    assert MatchesUnspelled(permitted[i], x);
  }

  lemma LongerThanSpelled(l: string, x: string, c: string)
    requires '.' !in l && |c| < |l| && SpellsWildcard(c, x)
    ensures !DNSNameMatches(Expand(l, x), c, FullMatch)
  {
    var w := TrimDot(Expand("*", x));
    assert w[0] == '*' && LowerAll(TrimDot(c))[0] == '*' && '.' !in "*";
    ExpansionLabels(l, x);
    ExpansionLabels("*", x);
    FullMatchIsLabelSuffix(Expand(l, x), c);
    assert |Labels(Expand(l, x))[0]| > 1 == |Labels(c)[0]|;
  }

  lemma ExpansionPermitted(l: string, x: string, excluded: seq<string>, permitted: seq<string>, constrained: bool)
    requires '.' !in l && PermittedDNSName(Expand("*", x), excluded, permitted, constrained)
    requires forall i :: 0 <= i < |excluded| ==> excluded[i] != "" ==> Labels(excluded[i])[1..] != BaseLabels(x)
    requires constrained ==> exists i :: 0 <= i < |permitted| && MatchesUnspelled(permitted[i], x)
    ensures PermittedDNSName(Expand(l, x), excluded, permitted, constrained)
  {
    if l != "*" {
      forall i | 0 <= i < |excluded| ensures !DNSNameMatches(Expand(l, x), excluded[i], PartialMatch) {
        NotExcluded(l, x, excluded[i]);
      }
      if constrained {
        var i :| 0 <= i < |permitted| && MatchesUnspelled(permitted[i], x);
        CoversExpansion(l, x, permitted[i]);
      }
    }
  }

  lemma NotExcluded(l: string, x: string, c: string)
    requires '.' !in l && l != "*" && !DNSNameMatches(Expand("*", x), c, PartialMatch)
    requires c != "" ==> Labels(c)[1..] != BaseLabels(x)
    ensures !DNSNameMatches(Expand(l, x), c, PartialMatch)
  {
    if |l| > 0 { assert Expand(l, x)[0] == l[0]; }
    if |l| > 1 { assert Expand(l, x)[1] == l[1]; }
    PartialVersusFull(Expand(l, x), c);
    PartialVersusFull(Expand("*", x), c);
    if DNSNameMatches(Expand(l, x), c, FullMatch) { ExpansionMatch(l, x, c); }
  }

  /** For every other base the partial test keeps excluded subtrees one label above it from permitting
      the wildcard. */
  lemma PartialTestCoversBases(x: string, excluded: seq<string>, permitted: seq<string>, constrained: bool)
    requires x != "" && x != "." && PermittedDNSName(Expand("*", x), excluded, permitted, constrained)
    ensures forall i :: 0 <= i < |excluded| ==> excluded[i] != "" ==> Labels(excluded[i])[1..] != BaseLabels(x)
  {
    forall i | 0 <= i < |excluded| && excluded[i] != "" ensures Labels(excluded[i])[1..] != BaseLabels(x) {
      PartialMatchByLabels(x, excluded[i]);
    }
  }

  /** Wildcard soundness as it is met in practice: if no permitted subtree spells the wildcard itself,
      permitting a wildcard name permits everything the wildcard can stand for. */
  lemma WildcardSound(l: string, x: string, excluded: seq<string>, permitted: seq<string>, constrained: bool)
    requires x != "" && x != "." && '.' !in l
    requires forall i :: 0 <= i < |permitted| ==> !SpellsWildcard(permitted[i], x)
    requires PermittedDNSName(Expand("*", x), excluded, permitted, constrained)
    ensures PermittedDNSName(Expand(l, x), excluded, permitted, constrained)
  {
    PartialTestCoversBases(x, excluded, permitted, constrained);
    if constrained {
      var i :| 0 <= i < |permitted| && DNSNameMatches(Expand("*", x), permitted[i], FullMatch);
      assert MatchesUnspelled(permitted[i], x);
    }
    ExpansionPermitted(l, x, excluded, permitted, constrained);
  }

  /** With nothing behind the wildcard's dot, `*.` is permitted beside an excluded host that it can stand
      for. */
  lemma EmptyBaseIsUnsound()
    ensures PermittedDNSName(Expand("*", ""), ["a"], [], false)
    ensures !PermittedDNSName(Expand("a", ""), ["a"], [], false)
  {
    assert Expand("*", "") == "*." && Expand("a", "") == "a." && TrimDot("a") == "a";
    assert TrimDot("*.") == "*" && TrimDot("a.") == "a";
    assert "*"[0..] == "*" && "a"[0..] == "a";
    assert LowerAll("*")[0] == '*' && LowerAll("a")[0] == 'a';
    assert DNSNameMatches("a.", ["a"][0], PartialMatch);
  }

  /** A permitted subtree that spells the wildcard is not enough: it permits none of the hosts. */
  lemma WildcardSubtreeIsUnsound()
    ensures PermittedDNSName(Expand("*", "b"), [], ["*.b"], true)
    ensures !PermittedDNSName(Expand("a", "b"), [], ["*.b"], true)
  {
    assert Expand("*", "b") == "*.b" && TrimDot("*.b") == "*.b";
    SpelledWildcard("b", "*.b");
    assert DNSNameMatches(Expand("*", "b"), ["*.b"][0], FullMatch);
  }

  function MaxLength(cs: seq<string>): (n: nat)
    ensures forall i :: 0 <= i < |cs| ==> |cs[i]| <= n
  {
    if cs == [] then 0
    else
      var m := MaxLength(cs[..|cs| - 1]);
      if m < |cs[|cs| - 1]| then |cs[|cs| - 1]| else m
  }

  predicate Host(l: string) {
    '.' !in l && '*' !in l
  }

  /** With star-free subtrees, a wildcard name is permitted exactly when every host it can stand for
      is permitted. */
  lemma WildcardPermittedExactly(x: string, excluded: seq<string>, permitted: seq<string>, constrained: bool)
    requires x != "" && x != "."
    requires forall i :: 0 <= i < |excluded| ==> '*' !in excluded[i]
    requires forall i :: 0 <= i < |permitted| ==> '*' !in permitted[i]
    ensures PermittedDNSName(Expand("*", x), excluded, permitted, constrained)
       <==> forall l :: Host(l) ==> PermittedDNSName(Expand(l, x), excluded, permitted, constrained)
  {
    if PermittedDNSName(Expand("*", x), excluded, permitted, constrained) {
      forall i | 0 <= i < |permitted| ensures !SpellsWildcard(permitted[i], x) {
        StarFree(permitted[i], x);
      }
      forall l | Host(l) ensures PermittedDNSName(Expand(l, x), excluded, permitted, constrained) {
        WildcardSound(l, x, excluded, permitted, constrained);
      }
    }
    if forall l :: Host(l) ==> PermittedDNSName(Expand(l, x), excluded, permitted, constrained) {
      HostsPermitWildcard(x, excluded, permitted, constrained);
    }
  }

  lemma HostsPermitWildcard(x: string, excluded: seq<string>, permitted: seq<string>, constrained: bool)
    requires x != "" && x != "."
    requires forall i :: 0 <= i < |excluded| ==> '*' !in excluded[i]
    requires forall l :: Host(l) ==> PermittedDNSName(Expand(l, x), excluded, permitted, constrained)
    ensures PermittedDNSName(Expand("*", x), excluded, permitted, constrained)
  {
    forall i | 0 <= i < |excluded| ensures !DNSNameMatches(Expand("*", x), excluded[i], PartialMatch) {
      if DNSNameMatches(Expand("*", x), excluded[i], PartialMatch) {
        var l := HostExpansion(x, excluded[i]);
        PartialVersusFull(Expand(l, x), excluded[i]);
        assert false;
      }
    }
    if constrained {
      var l := seq(MaxLength(permitted) + 1, _ => 'a');
      assert Host(l);
      assert PermittedDNSName(Expand(l, x), excluded, permitted, constrained);
      var i :| 0 <= i < |permitted| && DNSNameMatches(Expand(l, x), permitted[i], FullMatch);
      LongLabelMatch(l, x, permitted[i]);
    }
  }

  lemma LongLabelMatch(l: string, x: string, c: string)
    requires '.' !in l && |c| < |l| && DNSNameMatches(Expand(l, x), c, FullMatch)
    ensures DNSNameMatches(Expand("*", x), c, FullMatch)
  {
    ExpansionMatch(l, x, c);
    LabelsAfterFirstDot(c);
    assert |Labels(c)[0]| <= |c|;
  }

  lemma StarFree(c: string, x: string)
    requires '*' !in c
    ensures !IsEqualNoCase(TrimDot(c), TrimDot(Expand("*", x)))
  {
    var t, w := TrimDot(c), TrimDot(Expand("*", x));
    assert w[0] == '*' && LowerAll(w)[0] == '*';
    if t != "" {
      assert t[0] == c[0] && LowerAll(t)[0] != '*';
    }
  }

  /** A host that falls within a star-free constraint the wildcard partially matches. */
  lemma HostExpansion(x: string, c: string) returns (l: string)
    requires x != "" && x != "." && '*' !in c && DNSNameMatches(Expand("*", x), c, PartialMatch)
    ensures Host(l) && DNSNameMatches(Expand(l, x), c, FullMatch)
  {
    if DNSNameMatches(Expand("*", x), c, FullMatch) {
      StarFree(c, x);
      l := "a";
      assert '.' !in l && '*' !in l;
      CoversExpansion(l, x, c);
    } else {
      PartialMatchByLabels(x, c);
      l := FirstLabelExpansion(x, c);
    }
  }

  lemma FirstLabelExpansion(x: string, c: string) returns (l: string)
    requires c != "" && Labels(c)[1..] == BaseLabels(x)
    ensures '.' !in l && (forall k :: 0 <= k < |l| ==> l[k] in c) && DNSNameMatches(Expand(l, x), c, FullMatch)
  {
    l := FirstLabel(c);
    ExpansionLabels(l, x);
    assert Labels(c) == [Labels(c)[0]] + Labels(c)[1..];
    SameLabelsMatch(Expand(l, x), c);
  }

  lemma FirstLabel(c: string) returns (l: string)
    ensures '.' !in l && (forall k :: 0 <= k < |l| ==> l[k] in c) && Labels(c)[0] == LowerAll(l)
  {
    LabelsAfterFirstDot(c);
    l := TrimDot(c)[..IndexOf(TrimDot(c), '.')];
    assert IndexOf(TrimDot(c), '.') == |TrimDot(c)| ==> l == TrimDot(c);
  }

  lemma SameLabelsMatch(n: string, c: string)
    requires Labels(n) == Labels(c)
    ensures DNSNameMatches(n, c, FullMatch)
  {
    FullMatchIsLabelSuffix(n, c);
    if LeadingDot(c) {
      LeadingDotLabels(c);
    }
    TailIsSuffix(Labels(c));
  }

  lemma TailIsSuffix(ls: seq<string>)
    requires |ls| > 0
    ensures IsSuffix(ls[1..], ls) && IsSuffix(ls, ls) && ls != ls[1..]
  {}
}
