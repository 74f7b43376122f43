/**
 * The shapes of the crosswalk's list comprehensions: one element per item
 * (`Map`), two per item (`Pairs`), and any number per item (`FlatMap`).
 * Each is built from the end, so that a loop that appends item by item
 * extends its prefix.
 */
module Seqs {

  /** `[f(x) for x in s]`. */
  function Map<A, B>(f: A -> B, s: seq<A>): (r: seq<B>)
    ensures |r| == |s|
    ensures forall i :: 0 <= i < |s| ==> r[i] == f(s[i])
  {
    if s == [] then [] else Map(f, s[..|s| - 1]) + [f(s[|s| - 1])]
  }

  /** One more item appends its image. */
  lemma MapStep<A, B>(f: A -> B, s: seq<A>, i: nat)
    requires i < |s|
    ensures Map(f, s[..i + 1]) == Map(f, s[..i]) + [f(s[i])]
  {
    assert s[..i + 1][..i] == s[..i];
  }

  /** `f(x)` then `g(x)` for each `x` of `s`. */
  function Pairs<A, B>(f: A -> B, g: A -> B, s: seq<A>): (r: seq<B>)
    ensures |r| == 2 * |s|
  {
    if s == [] then [] else Pairs(f, g, s[..|s| - 1]) + [f(s[|s| - 1]), g(s[|s| - 1])]
  }

  /** One more item appends its two images. */
  lemma PairsStep<A, B>(f: A -> B, g: A -> B, s: seq<A>, i: nat)
    requires i < |s|
    ensures Pairs(f, g, s[..i + 1]) == Pairs(f, g, s[..i]) + [f(s[i]), g(s[i])]
  {
    assert s[..i + 1][..i] == s[..i];
  }

  /** Item `i` gives positions `2 * i` and `2 * i + 1`. */
  lemma {:induction false} PairsAt<A, B>(f: A -> B, g: A -> B, s: seq<A>, i: nat)
    requires i < |s|
    ensures Pairs(f, g, s)[2 * i] == f(s[i]) && Pairs(f, g, s)[2 * i + 1] == g(s[i])
  {
    var n := |s| - 1;
    if i < n {
      PairsAt(f, g, s[..n], i);
      assert s[..n][i] == s[i];
    }
  }

  /** The pieces `f(x)` of each `x` of `s`, concatenated in order. */
  function FlatMap<A, B>(f: A -> seq<B>, s: seq<A>): seq<B> {
    if s == [] then [] else FlatMap(f, s[..|s| - 1]) + f(s[|s| - 1])
  }

  /** One more item appends its pieces. */
  lemma FlatMapStep<A, B>(f: A -> seq<B>, s: seq<A>, i: nat)
    requires i < |s|
    ensures FlatMap(f, s[..i + 1]) == FlatMap(f, s[..i]) + f(s[i])
  {
    assert s[..i + 1][..i] == s[..i];
  }

  /** The pieces of a concatenation are the concatenated pieces. */
  lemma {:induction false} FlatMapAppend<A, B>(f: A -> seq<B>, s: seq<A>, t: seq<A>)
    ensures FlatMap(f, s + t) == FlatMap(f, s) + FlatMap(f, t)
  {
    if t != [] {
      var n := |t| - 1;
      assert (s + t)[..|s + t| - 1] == s + t[..n];
      FlatMapAppend(f, s, t[..n]);
    } else {
      assert s + t == s;
    }
  }

  /** Every piece comes from some item, and every item's pieces are there. */
  lemma {:induction false} FlatMapMembers<A, B>(f: A -> seq<B>, s: seq<A>, y: B)
    ensures y in FlatMap(f, s) <==> exists i :: 0 <= i < |s| && y in f(s[i])
  {
    if s != [] {
      var n := |s| - 1;
      FlatMapMembers(f, s[..n], y);
      if y in FlatMap(f, s[..n]) {
        var i :| 0 <= i < n && y in f(s[..n][i]);
        assert s[..n][i] == s[i];
      }
      if exists i :: 0 <= i < |s| && y in f(s[i]) {
        var i :| 0 <= i < |s| && y in f(s[i]);
        if i < n {
          assert s[..n][i] == s[i];
        }
      }
    }
  }

  /** The number of pieces, when every item gives at most one. */
  lemma {:induction false} FlatMapLength<A(!new), B>(f: A -> seq<B>, s: seq<A>, p: A -> bool)
    requires forall x :: |f(x)| == (if p(x) then 1 else 0)
    ensures |FlatMap(f, s)| == |Select(p, s)|
  {
    if s != [] {
      FlatMapLength(f, s[..|s| - 1], p);
    }
  }

  /** `[x for x in s if p(x)]`. */
  function Select<A(!new)>(p: A -> bool, s: seq<A>): (r: seq<A>)
    ensures |r| <= |s|
    ensures forall x :: x in r <==> x in s && p(x)
  {
    if s == [] then []
    else
      var front := Select(p, s[..|s| - 1]);
      assert s == s[..|s| - 1] + [s[|s| - 1]];
      front + (if p(s[|s| - 1]) then [s[|s| - 1]] else [])
  }

  /** The last element of a concatenation comes from its second part, or from the
      first when the second is empty. */
  lemma LastOfConcat<T>(a: seq<T>, b: seq<T>)
    requires a + b != []
    ensures (a + b)[|a + b| - 1] == if b == [] then a[|a| - 1] else b[|b| - 1]
  {
    if b == [] {
      assert a + b == a;
    }
  }

  /** A concatenation of three parts opens with the first part and closes with the last. */
  lemma Ends<T>(a: seq<T>, b: seq<T>, c: seq<T>)
    requires |a| >= 2 && |c| >= 1
    ensures var s := a + b + c;
      |s| >= 3 && s[0] == a[0] && s[1] == a[1] && s[|s| - 1] == c[|c| - 1]
  {
  }

  /** Concatenation is associative. */
  lemma Assoc<T>(a: seq<T>, b: seq<T>, c: seq<T>)
    ensures a + b + c == a + (b + c)
  {
  }

  /** Appending two elements one at a time appends the pair. */
  lemma AppendPair<T>(a: seq<T>, b: seq<T>, x: T, y: T)
    ensures a + b + [x] + [y] == a + (b + [x, y])
  {
  }
}
