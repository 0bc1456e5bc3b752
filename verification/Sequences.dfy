/** Facts about sequences that several modules need. */
module Sequences {

  /** `b` is `a` with `x` put in at index `i`. */
  ghost predicate Inserted<T>(a: seq<T>, i: int, x: T, b: seq<T>) {
    0 <= i <= |a| && b == a[..i] + [x] + a[i..]
  }

  /** Where everything is once `x` has been put between `p` and `q`. */
  lemma PutBetween<T>(p: seq<T>, x: T, q: seq<T>)
    ensures var a, b := p + q, p + [x] + q;
      && Inserted(a, |p|, x, b) && b[|p|] == x
      && (forall i :: 0 <= i < |p| ==> b[i] == a[i] == p[i])
      && forall i :: |p| < i < |b| ==> b[i] == a[i - 1] == q[i - |p| - 1]
  {
    var a, b := p + q, p + [x] + q;
    assert a[..|p|] == p && a[|p|..] == q;
  }

  lemma PutAt<T>(p: seq<T>, x: T, q: seq<T>, i: nat)
    requires i < |p + [x] + q|
    ensures var b := p + [x] + q;
      && (i < |p| ==> b[i] == (p + q)[i] && b[i] in p)
      && (i == |p| ==> b[i] == x)
      && (i > |p| ==> b[i] == (p + q)[i - 1] && b[i] in q)
  {
    if i > |p| {
      assert (p + [x] + q)[i] == q[i - |p| - 1];
    }
  }

  lemma Associate<T>(a: seq<T>, b: seq<T>, c: seq<T>)
    ensures a + b + c == a + (b + c)
  {
  }

  lemma Regroup<T>(a: seq<T>, b: seq<T>, c: seq<T>, d: seq<T>)
    ensures a + (b + c) + d == (a + b) + c + d == a + b + (c + d)
  {
  }
}
