/** Sequence helpers: the list and the stacks of the component are sequences
    whose last element is the most recently added one. */
module Seqs {

  function Last<T>(xs: seq<T>): (x: T)
    requires |xs| > 0
    ensures x in xs
  {
    xs[|xs| - 1]
  }

  function DropLast<T>(xs: seq<T>): (r: seq<T>)
    requires |xs| > 0
    ensures |r| == |xs| - 1
  {
    xs[..|xs| - 1]
  }

  lemma SeqAssoc<T>(a: seq<T>, b: seq<T>, c: seq<T>)
    ensures (a + b) + c == a + (b + c)
  {
  }

  lemma SplitLast<T>(xs: seq<T>)
    requires |xs| > 0
    ensures xs == DropLast(xs) + [Last(xs)]
    ensures forall y :: y in DropLast(xs) ==> y in xs
  {
  }

  /** The order in which elements come off a stack whose top is the end of `xs`. */
  function Reverse<T>(xs: seq<T>): (r: seq<T>)
    ensures |r| == |xs|
  {
    if |xs| == 0 then [] else [Last(xs)] + Reverse(DropLast(xs))
  }

  /** The i-th element popped is the i-th from the top. */
  lemma {:induction false} ReverseIndex<T>(xs: seq<T>)
    ensures forall i :: 0 <= i < |xs| ==> Reverse(xs)[i] == xs[|xs| - 1 - i]
  {
    if |xs| > 0 {
      ReverseIndex(DropLast(xs));
    }
  }

  lemma ReverseInvolutive<T>(xs: seq<T>)
    ensures Reverse(Reverse(xs)) == xs
  {
    ReverseIndex(xs);
    ReverseIndex(Reverse(xs));
  }

  lemma {:induction false} ReverseMultiset<T>(xs: seq<T>)
    ensures multiset(Reverse(xs)) == multiset(xs)
  {
    if |xs| > 0 {
      ReverseMultiset(DropLast(xs));
      assert xs == DropLast(xs) + [Last(xs)];
    }
  }

  lemma ReverseMembers<T>(xs: seq<T>)
    ensures forall x :: x in Reverse(xs) <==> x in xs
  {
    ReverseMultiset(xs);
    forall x
      ensures x in Reverse(xs) <==> x in xs
    {
      assert x in Reverse(xs) <==> x in multiset(Reverse(xs));
      assert x in xs <==> x in multiset(xs);
    }
  }

  /** The bottom element of a stack is popped last. */
  lemma {:induction false} ReverseCons<T>(x: T, ys: seq<T>)
    ensures Reverse([x] + ys) == Reverse(ys) + [x]
    decreases |ys|
  {
    if |ys| > 0 {
      var xs := [x] + ys;
      assert Last(xs) == Last(ys);
      assert DropLast(xs) == [x] + DropLast(ys);
      ReverseCons(x, DropLast(ys));
    }
  }

  /** Moving the last element of `xs` onto `ys` and then the reversed last
      `n - 1` of what remains is moving the reversed last `n` of `xs`. */
  lemma ReverseSuffixStep<T>(xs: seq<T>, ys: seq<T>, n: nat)
    requires 0 < n <= |xs|
    ensures DropLast(xs)[..|xs| - n] == xs[..|xs| - n]
    ensures (ys + [Last(xs)]) + Reverse(DropLast(xs)[|xs| - n..]) == ys + Reverse(xs[|xs| - n..])
  {
    var m := |xs|;
    var top := xs[m - n..];
    assert DropLast(xs)[m - n..] == DropLast(top);
    assert Last(top) == Last(xs);
    assert Reverse(top) == [Last(top)] + Reverse(DropLast(top));
    SeqAssoc(ys, [Last(top)], Reverse(DropLast(top)));
  }
}
