/** Order-preserving de-duplication of a list, the loop `topic_areas` runs. */
module Lists {

  /** No element occurs twice. */
  ghost predicate Distinct<T>(xs: seq<T>) {
    forall i, j :: 0 <= i < j < |xs| ==> xs[i] != xs[j]
  }

  /** The position of the first occurrence of `x` in `xs`. */
  ghost function FirstIndex<T>(xs: seq<T>, x: T): (i: nat)
    requires x in xs
    ensures i < |xs| && xs[i] == x
    ensures forall j :: 0 <= j < i ==> xs[j] != x
  {
    if xs[0] == x then 0 else 1 + FirstIndex(xs[1..], x)
  }

  /** A value first seen inside a prefix is first seen at the same place in the whole list. */
  lemma FirstIndexInPrefix<T>(xs: seq<T>, n: nat, x: T)
    requires n <= |xs| && x in xs[..n]
    ensures FirstIndex(xs, x) == FirstIndex(xs[..n], x)
  {
    var i := FirstIndex(xs[..n], x);
    assert xs[i] == x;
    assert forall j :: 0 <= j < i ==> xs[j] == xs[..n][j];
  }

  /** The list a loop builds by appending each element of `xs` that it has
      not appended before, defined on the prefix processed so far. */
  function Unique<T(==,!new)>(xs: seq<T>): (r: seq<T>)
    ensures Distinct(r)
    ensures forall x :: x in r <==> x in xs
    ensures forall i, j :: 0 <= i < j < |r| ==> FirstIndex(xs, r[i]) < FirstIndex(xs, r[j])
  {
    if |xs| == 0 then []
    else
      var n := |xs| - 1;
      var prefix := Unique(xs[..n]);
      var x := xs[n];
      assert xs == xs[..n] + [x];
      assert forall y :: y in prefix ==> FirstIndex(xs, y) == FirstIndex(xs[..n], y) by {
        forall y | y in prefix {
          FirstIndexInPrefix(xs, n, y);
        }
      }
      if x in prefix then prefix
      else
        assert FirstIndex(xs, x) == n;
        prefix + [x]
  }
}
