/** Small sequence vocabulary shared by the chart pipeline: an optional value
    (JavaScript's `undefined` result), duplicate-freedom, and the order in
    which the keys of a JavaScript `Map` come out when it is filled in
    input order. */
module Basics {

  /** A value that may be absent, as `d3.extent` and `d3.max` return
      `undefined` when they see no value. */
  datatype Option<+T> = None | Some(value: T)

  /** No element occurs twice. */
  predicate NoDups<T(==)>(xs: seq<T>) {
    forall i, j :: 0 <= i < j < |xs| ==> xs[i] != xs[j]
  }

  /** The position of the first occurrence of `x` in `xs`. */
  function FirstIndex<T(==)>(xs: seq<T>, x: T): (k: nat)
    requires x in xs
    ensures k < |xs| && xs[k] == x && x !in xs[..k]
  {
    if xs[0] == x then 0
    else
      assert xs[1..][..FirstIndex(xs[1..], x)] == xs[1..1 + FirstIndex(xs[1..], x)];
      1 + FirstIndex(xs[1..], x)
  }

  /** The elements of `xs`, each once, as a `Map` keyed by them would list
      its keys after the entries were inserted in the order of `xs`: a key
      already present keeps its place, a new key goes to the end. */
  function Distinct<T(==,!new)>(xs: seq<T>): (r: seq<T>)
    ensures NoDups(r)
    ensures forall x :: x in r <==> x in xs
  {
    if |xs| == 0 then []
    else
      var d := Distinct(xs[..|xs| - 1]);
      assert forall x :: x in xs <==> x in xs[..|xs| - 1] || x == xs[|xs| - 1];
      if xs[|xs| - 1] in d then d else d + [xs[|xs| - 1]]
  }

  /** Appending one element either leaves the distinct list alone (the
      element was seen before) or appends it. */
  lemma DistinctSnoc<T(!new)>(xs: seq<T>, x: T)
    ensures Distinct(xs + [x]) == if x in xs then Distinct(xs) else Distinct(xs) + [x]
  {
  }

  /** The first occurrence of an element of a prefix does not move when the
      sequence is extended. */
  lemma FirstIndexPrefix<T>(xs: seq<T>, n: nat, x: T)
    requires n <= |xs| && x in xs[..n]
    ensures FirstIndex(xs, x) == FirstIndex(xs[..n], x)
  {
    var k, k' := FirstIndex(xs, x), FirstIndex(xs[..n], x);
    assert xs[..n][..k'] == xs[..k'];
    assert xs[k'] == x && x !in xs[..k'];
    assert forall i :: 0 <= i < k ==> xs[..k][i] != x;
  }

  /** `Distinct` lists the elements in the order of their first occurrence in
      the input, which is the iteration order of a `Map` filled from it. */
  lemma {:induction false} DistinctFirstOccurrenceOrder<T(!new)>(xs: seq<T>)
    ensures forall i, j :: 0 <= i < j < |Distinct(xs)| ==>
              FirstIndex(xs, Distinct(xs)[i]) < FirstIndex(xs, Distinct(xs)[j])
  {
    if |xs| > 0 {
      var n := |xs| - 1;
      var pre := xs[..n];
      DistinctFirstOccurrenceOrder(pre);
      var d, r := Distinct(pre), Distinct(xs);
      forall i, j | 0 <= i < j < |r|
        ensures FirstIndex(xs, r[i]) < FirstIndex(xs, r[j])
      {
        assert r[i] in d;
        FirstIndexPrefix(xs, n, r[i]);
        if j < |d| {
          FirstIndexPrefix(xs, n, r[j]);
        } else {
          assert r[j] == xs[n] && xs[n] !in pre;
          assert xs[..n] == pre;
        }
      }
    }
  }
}
