/** Object identifiers as lists of numbers, and their DER encoding (X.690, section 8.19), to which the
    byte constants of the other modules are compared. */
module ObjectIdentifiers {
  import opened Input

  function Base128(n: nat): seq<u8> {
    if n < 128 then [n] else Leading(n / 128) + [n % 128]
  }

  /** The septets before the last one, each with its top bit set. */
  function Leading(n: nat): seq<u8> {
    if n < 128 then [128 + n] else Leading(n / 128) + [128 + n % 128]
  }

  function Rest(arcs: seq<nat>): seq<u8> {
    if arcs == [] then [] else Base128(arcs[0]) + Rest(arcs[1..])
  }

  function Encode(arcs: seq<nat>): seq<u8>
    requires |arcs| >= 2
  {
    Base128(40 * arcs[0] + arcs[1]) + Rest(arcs[2..])
  }

  /** Numbers below 128 are their own encodings. */
  lemma {:induction false} SmallArcs(arcs: seq<nat>)
    requires forall i :: 0 <= i < |arcs| ==> arcs[i] < 128
    ensures Rest(arcs) == arcs
  {
    if arcs != [] { SmallArcs(arcs[1..]); }
  }

  lemma {:induction false} ArcBetween(front: seq<nat>, arc: nat, back: seq<nat>)
    ensures Rest(front + ([arc] + back)) == Rest(front) + (Base128(arc) + Rest(back))
  {
    var tail := [arc] + back;
    assert tail[1..] == back;
    if front == [] {
      assert front + tail == tail;
    } else {
      assert (front + tail)[1..] == front[1..] + tail;
      ArcBetween(front[1..], arc, back);
      Regroup(Base128(front[0]), Rest(front[1..]), Base128(arc) + Rest(back));
    }
  }

  lemma Regroup(a: seq<u8>, b: seq<u8>, c: seq<u8>)
    ensures a + (b + c) == (a + b) + c
  {}

  lemma EncodeParts(a: nat, b: nat, rest: seq<nat>)
    ensures Encode([a, b] + rest) == Base128(40 * a + b) + Rest(rest)
  {
    var arcs := [a, b] + rest;
    assert arcs[0] == a && arcs[1] == b && arcs[2..] == rest;
  }

  lemma EncodeSmall(a: nat, b: nat, rest: seq<nat>)
    requires 40 * a + b < 128 && forall i :: 0 <= i < |rest| ==> rest[i] < 128
    ensures Encode([a, b] + rest) == [40 * a + b] + rest
  {
    EncodeParts(a, b, rest);
    SmallArcs(rest);
  }

  lemma ArcInFront(arc: nat, back: seq<nat>)
    ensures Rest([arc] + back) == Base128(arc) + Rest(back)
  {
    assert ([arc] + back)[1..] == back;
  }

  lemma EncodeWide(a: nat, b: nat, arc: nat, back: seq<nat>)
    requires 40 * a + b < 128
    ensures Encode([a, b] + ([arc] + back)) == [40 * a + b] + (Base128(arc) + Rest(back))
  {
    EncodeParts(a, b, [arc] + back);
    ArcInFront(arc, back);
  }

  lemma TwoSeptets(arc: nat)
    requires 128 <= arc < 16384
    ensures Base128(arc) == [128 + arc / 128, arc % 128]
  {
    assert Leading(arc / 128) == [128 + arc / 128];
  }

  /** One number of two septets among small ones. */
  lemma EncodeWithWide(a: nat, b: nat, front: seq<nat>, arc: nat, back: seq<nat>)
    requires 40 * a + b < 128 && 128 <= arc < 16384
    requires (forall i :: 0 <= i < |front| ==> front[i] < 128) && (forall i :: 0 <= i < |back| ==> back[i] < 128)
    ensures Encode([a, b] + (front + ([arc] + back))) == [40 * a + b] + (front + ([128 + arc / 128, arc % 128] + back))
  {
    EncodeParts(a, b, front + ([arc] + back));
    ArcBetween(front, arc, back);
    SmallArcs(front);
    SmallArcs(back);
    TwoSeptets(arc);
  }
}
