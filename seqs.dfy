/** Concatenating the lists a function gives for each element of a list,
    with the facts the page scraper relies on. The function is a parameter,
    so nothing here depends on what it computes. */
module Seqs {

  /** The lists `f` gives for the elements of `xs`, joined in order. */
  function FlatMap<A, B>(xs: seq<A>, f: A -> seq<B>): seq<B> {
    if xs == [] then [] else FlatMap(xs[..|xs| - 1], f) + f(xs[|xs| - 1])
  }

  /** One more element appends its list. */
  lemma FlatMapStep<A, B>(xs: seq<A>, f: A -> seq<B>, k: nat)
    requires k < |xs|
    ensures FlatMap(xs[..k + 1], f) == FlatMap(xs[..k], f) + f(xs[k])
  {
    assert xs[..k + 1][..k] == xs[..k];
  }

  /** Splitting the list splits the result at the same place. */
  lemma {:induction false} FlatMapSplit<A, B>(xs: seq<A>, f: A -> seq<B>, j: nat)
    requires j <= |xs|
    ensures FlatMap(xs, f) == FlatMap(xs[..j], f) + FlatMap(xs[j..], f)
    decreases |xs| - j
  {
    if j < |xs| {
      var init := xs[..|xs| - 1];
      assert xs[..j] == init[..j];
      FlatMapSplit(init, f, j);
      var tail := xs[j..];
      assert tail[..|tail| - 1] == init[j..] && tail[|tail| - 1] == xs[|xs| - 1];
    } else {
      assert xs[..j] == xs;
      assert xs[j..] == [];
    }
  }

  /** Whatever `f` gives for an element is part of the result... */
  lemma FlatMapMember<A, B>(xs: seq<A>, f: A -> seq<B>, k: nat, y: B)
    requires k < |xs| && y in f(xs[k])
    ensures y in FlatMap(xs, f)
  {
    FlatMapSplit(xs, f, k + 1);
    FlatMapStep(xs, f, k);
  }

  /** ...and every part of the result comes from some element. */
  lemma {:induction false} FlatMapOrigin<A, B>(xs: seq<A>, f: A -> seq<B>, y: B)
    requires y in FlatMap(xs, f)
    ensures exists x :: x in xs && y in f(x)
  {
    var init, last := xs[..|xs| - 1], xs[|xs| - 1];
    if y in FlatMap(init, f) {
      FlatMapOrigin(init, f, y);
      var x :| x in init && y in f(x);
      assert x in xs;
    } else {
      assert y in f(last);
    }
  }

  /** The head and tail of a concatenation whose first part is not empty. */
  lemma AppendHeadTail<T>(a: seq<T>, b: seq<T>)
    requires a != []
    ensures (a + b)[0] == a[0] && (a + b)[1..] == a[1..] + b
  {
  }
}
