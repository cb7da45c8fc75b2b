/** Lists that keep some elements of another one in order. */
module Subsequences {

  /** `a` keeps some elements of `b`, in the order they have there. */
  ghost predicate Subsequence<T>(a: seq<T>, b: seq<T>)
    decreases b
  {
    a == [] || (b != [] && ((a[|a| - 1] == b[|b| - 1] && Subsequence(a[..|a| - 1], b[..|b| - 1]))
                            || Subsequence(a, b[..|b| - 1])))
  }

  lemma SubsequencePlus<T>(a: seq<T>, b: seq<T>)
    requires b != [] && Subsequence(a, b[..|b| - 1])
    ensures Subsequence(a, b) && Subsequence(a + [b[|b| - 1]], b)
  {
    assert (a + [b[|b| - 1]])[..|a|] == a;
  }

  lemma {:induction false} SubsequenceOfItself<T>(a: seq<T>)
    ensures Subsequence(a, a)
  {
    if a != [] {
      SubsequenceOfItself(a[..|a| - 1]);
    }
  }

  lemma {:induction false} DropOne<T>(a: seq<T>, i: nat)
    requires i < |a|
    ensures Subsequence(a[..i] + a[i + 1..], a)
    decreases |a|
  {
    var rest, before := a[..i] + a[i + 1..], a[..|a| - 1];
    if i == |a| - 1 {
      assert rest == before;
      SubsequenceOfItself(before);
      SubsequencePlus(before, a);
    } else {
      DropOne(before, i);
      SubsequencePlus(before[..i] + before[i + 1..], a);
      assert rest == before[..i] + before[i + 1..] + [a[|a| - 1]];
    }
  }
}
