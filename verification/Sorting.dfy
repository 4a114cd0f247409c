/** Sorting byte strings by `operator<`. The repository calls the standard library's sort; because the
    order is strict and total (`Input.LessTotal`), every correct sort returns the list this one does. */
module Sorting {
  import opened Input

  ghost predicate Sorted(s: seq<Bytes>) {
    forall i, j :: 0 <= i < j < |s| ==> !Less(s[j], s[i])
  }

  function Insert(x: Bytes, s: seq<Bytes>): (r: seq<Bytes>)
    ensures multiset(r) == multiset(s) + multiset{x}
    ensures |r| == |s| + 1
  {
    if s == [] || !Less(s[0], x) then
      assert [x] + s == [x] + s;
      [x] + s
    else
      assert s == [s[0]] + s[1..];
      [s[0]] + Insert(x, s[1..])
  }

  function Sort(s: seq<Bytes>): (r: seq<Bytes>)
    ensures multiset(r) == multiset(s)
    ensures |r| == |s|
  {
    if s == [] then [] else
      assert s == [s[0]] + s[1..];
      Insert(s[0], Sort(s[1..]))
  }

  lemma {:induction false} SortIsSorted(s: seq<Bytes>)
    ensures Sorted(Sort(s))
  {
    if s != [] {
      SortIsSorted(s[1..]);
      InsertKeepsSorted(s[0], Sort(s[1..]));
    }
  }

  lemma {:induction false} InsertKeepsSorted(x: Bytes, s: seq<Bytes>)
    requires Sorted(s)
    ensures Sorted(Insert(x, s))
  {
    var r := Insert(x, s);
    if s == [] {
    } else if !Less(s[0], x) {
      forall j | 0 < j < |r| ensures !Less(r[j], x) {
        NotLessTransitive(r[j], s[0], x);
      }
    } else {
      InsertKeepsSorted(x, s[1..]);
      var tail := Insert(x, s[1..]);
      forall j | 0 < j < |r| ensures !Less(r[j], s[0]) {
        MemberOf(tail, j - 1);
        assert tail[j - 1] in multiset(s[1..]) + multiset{x};
        if tail[j - 1] == x {
          LessTotal(s[0], x);
        } else {
          assert tail[j - 1] in s[1..];
        }
      }
    }
  }

  lemma InSort(s: seq<Bytes>, v: Bytes)
    ensures v in Sort(s) <==> v in s
  {
    assert v in Sort(s) <==> v in multiset(Sort(s));
    assert v in s <==> v in multiset(s);
  }

  lemma MemberOf(s: seq<Bytes>, i: nat)
    requires i < |s|
    ensures s[i] in multiset(s)
  {}

  lemma NotLessTransitive(a: Bytes, b: Bytes, c: Bytes)
    requires !Less(b, c) && (a == b || !Less(a, b))
    ensures !Less(a, c)
  {
    LessTotal(a, b);
    LessTotal(b, c);
    LessTotal(a, c);
    if Less(a, c) && Less(b, a) { LessTransitive(b, a, c); }
    if Less(c, b) && Less(a, c) { LessTransitive(a, c, b); }
  }

  /** A sorted list is determined by its contents. */
  lemma {:induction false} SortedIsUnique(a: seq<Bytes>, b: seq<Bytes>)
    requires Sorted(a) && Sorted(b) && multiset(a) == multiset(b)
    ensures a == b
  {
    assert |a| == |multiset(a)| && |b| == |multiset(b)|;
    if a != [] {
      SmallestFirst(a, b);
      SmallestFirst(b, a);
      LessTotal(a[0], b[0]);
      assert a == [a[0]] + a[1..] && b == [b[0]] + b[1..];
      assert multiset(a[1..]) == multiset(a) - multiset{a[0]};
      assert multiset(b[1..]) == multiset(b) - multiset{b[0]};
      SortedIsUnique(a[1..], b[1..]);
    }
  }

  lemma SmallestFirst(a: seq<Bytes>, b: seq<Bytes>)
    requires Sorted(a) && a != [] && b != [] && multiset(a) == multiset(b)
    ensures !Less(b[0], a[0])
  {
    assert b[0] in multiset(a);
    var j :| 0 <= j < |a| && a[j] == b[0];
    if j == 0 { LessTotal(a[0], a[0]); }
  }
}
