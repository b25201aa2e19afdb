/** Sequence helpers for the random reorderings of the question builder.
    `sort(() => Math.random() - 0.5)` leaves its array in some order that the
    comparator's random answers decide. Here that order is made an explicit
    input: a stream of draws, each one choosing which of the remaining
    elements comes next. `DrawsFor` shows that every permutation can be drawn,
    so the model covers every order the random sort might produce. */
module Shuffles {

  /** The smaller of `a` and `b`. */
  function Min(a: int, b: int): (r: int)
  {
    if a <= b then a else b
  }

  /** `s` without the element at index `j`. */
  function RemoveAt<T>(s: seq<T>, j: nat): (r: seq<T>)
    requires j < |s|
    ensures |r| == |s| - 1
    ensures multiset(r) == multiset(s) - multiset{s[j]}
  {
    assert s == s[..j] + [s[j]] + s[j + 1..];
    s[..j] + s[j + 1..]
  }

  /** The first index at which `x` occurs in `s`. */
  function IndexOf<T(==)>(s: seq<T>, x: T): (j: nat)
    requires x in s
    ensures j < |s| && s[j] == x
    ensures forall m :: 0 <= m < j ==> s[m] != x
  {
    if s[0] == x then 0 else 1 + IndexOf(s[1..], x)
  }

  /** The elements of `s` in the order chosen by `draws`: the first draw,
      taken modulo the number of elements left, picks the element that comes
      first, the next draw picks among the rest, and so on. When the draws run
      out the remaining elements keep their order. */
  function Shuffle<T>(s: seq<T>, draws: seq<nat>): (r: seq<T>)
    ensures |r| == |s|
    decreases |s|
  {
    if s == [] then []
    else
      var j := if draws == [] then 0 else draws[0] % |s|;
      [s[j]] + Shuffle(RemoveAt(s, j), if draws == [] then [] else draws[1..])
  }

  /** Whatever the draws, `Shuffle` reorders `s`: it keeps every element as
      often as `s` holds it. */
  lemma {:induction false} ShufflePermutes<T>(s: seq<T>, draws: seq<nat>)
    ensures multiset(Shuffle(s, draws)) == multiset(s)
    decreases |s|
  {
    if s != [] {
      var j := if draws == [] then 0 else draws[0] % |s|;
      ShufflePermutes(RemoveAt(s, j), if draws == [] then [] else draws[1..]);
    }
  }

  /** Without draws, the order is left as it is. */
  lemma {:induction false} ShuffleWithoutDraws<T>(s: seq<T>)
    ensures Shuffle(s, []) == s
    decreases |s|
  {
    if s != [] {
      ShuffleWithoutDraws(RemoveAt(s, 0));
      assert RemoveAt(s, 0) == s[1..];
    }
  }

  /** A first draw below the length picks the element at that index. */
  lemma ShuffleFirstDraw<T>(s: seq<T>, draws: seq<nat>)
    requires draws != [] && draws[0] < |s|
    ensures Shuffle(s, draws) == [s[draws[0]]] + Shuffle(RemoveAt(s, draws[0]), draws[1..])
  {
    SmallModulus(draws[0], |s|);
  }

  /** Draws under which `Shuffle(s, _)` yields the reordering `t` of `s`. */
  function DrawsFor<T(==)>(s: seq<T>, t: seq<T>): (draws: seq<nat>)
    requires multiset(t) == multiset(s)
    ensures |draws| == |s|
    ensures forall m :: 0 <= m < |draws| ==> draws[m] < |s| - m
    decreases |s|
  {
    if t == [] then
      assert |s| == |multiset(s)| == 0;
      []
    else
      assert t == [t[0]] + t[1..];
      assert multiset(t) == multiset{t[0]} + multiset(t[1..]);
      assert t[0] in multiset(s);
      var j := IndexOf(s, t[0]);
      assert multiset(t[1..]) == multiset(RemoveAt(s, j));
      var rest := DrawsFor(RemoveAt(s, j), t[1..]);
      assert forall m :: 0 < m < |s| ==> ([j] + rest)[m] == rest[m - 1];
      [j] + rest
  }

  /** Every reordering of `s` is the result of some draws: modelling the
      random sort by `Shuffle` leaves out no outcome. */
  lemma {:induction false} ShuffleReachesEveryOrder<T>(s: seq<T>, t: seq<T>)
    requires multiset(t) == multiset(s)
    ensures Shuffle(s, DrawsFor(s, t)) == t
    decreases |s|
  {
    if t == [] {
      assert |s| == |multiset(s)| == 0;
    } else {
      assert t == [t[0]] + t[1..];
      assert multiset(t) == multiset{t[0]} + multiset(t[1..]);
      assert t[0] in multiset(s);
      var j := IndexOf(s, t[0]);
      assert multiset(t[1..]) == multiset(RemoveAt(s, j));
      var rest := DrawsFor(RemoveAt(s, j), t[1..]);
      var draws := DrawsFor(s, t);
      assert draws == [j] + rest;
      assert draws[0] == j < |s|;
      SmallModulus(j, |s|);
      assert draws[1..] == rest;
      ShuffleReachesEveryOrder(RemoveAt(s, j), t[1..]);
      assert Shuffle(s, draws) == [s[j]] + Shuffle(RemoveAt(s, j), rest);
    }
  }

  /** A step on its own: it keeps the proofs that pick an index by its draw
      within the solver's budget. */
  lemma SmallModulus(a: nat, n: nat)
    requires a < n
    ensures a % n == a
  {
  }

  /** What is left of `s` after taking out one occurrence of each element of
      `w`: the multiset difference, as a sequence. */
  function Without<T(==)>(s: seq<T>, w: seq<T>): (r: seq<T>)
    requires multiset(w) <= multiset(s)
    ensures multiset(r) == multiset(s) - multiset(w)
    decreases |w|
  {
    if w == [] then s
    else
      assert w == [w[0]] + w[1..];
      assert multiset(w) == multiset{w[0]} + multiset(w[1..]);
      assert w[0] in multiset(s);
      var j := IndexOf(s, w[0]);
      assert multiset(w[1..]) <= multiset(s) - multiset{w[0]};
      Without(RemoveAt(s, j), w[1..])
  }

  /** The first `n` elements of `s`, or all of them when there are fewer:
      what `slice(0, n)` returns. */
  function Take<T>(s: seq<T>, n: nat): (r: seq<T>)
    ensures |r| == Min(n, |s|)
    ensures multiset(r) <= multiset(s)
    ensures forall m :: 0 <= m < |r| ==> r[m] == s[m]
  {
    var k := Min(n, |s|);
    assert s == s[..k] + s[k..];
    s[..k]
  }

  /** `w` followed by what `s` holds beyond it is a reordering of `s`. */
  lemma WithoutCompletes<T>(s: seq<T>, w: seq<T>)
    requires multiset(w) <= multiset(s)
    ensures multiset(w + Without(s, w)) == multiset(s)
  {
  }

  /** Taking as many elements as a prefix holds gives back that prefix. */
  lemma TakePrefix<T>(w: seq<T>, rest: seq<T>, n: nat)
    requires |w| == Min(n, |w| + |rest|)
    ensures Take(w + rest, n) == w
  {
    assert (w + rest)[..|w|] == w;
  }

  /** Two positions holding the same value make its multiplicity at least two. */
  lemma TwoPositionsTwice<T>(s: seq<T>, i: nat, j: nat)
    requires i < |s| && j < |s| && i != j && s[i] == s[j]
    ensures multiset(s)[s[i]] >= 2
  {
    var lo, hi := if i < j then i else j, if i < j then j else i;
    assert s == s[..hi] + [s[hi]] + s[hi + 1..];
    assert s[..hi][lo] == s[lo];
    assert s[lo] in multiset(s[..hi]);
  }

  /** A multiplicity of at least two comes from two different positions. */
  lemma TwiceTwoPositions<T>(s: seq<T>, x: T) returns (i: nat, j: nat)
    requires multiset(s)[x] >= 2
    ensures i < j < |s| && s[i] == x && s[j] == x
  {
    assert x in s;
    i := IndexOf(s, x);
    var rest := RemoveAt(s, i);
    assert x in multiset(rest);
    var m := IndexOf(rest, x);
    assert m >= i;
    j := m + 1;
  }

  /** A sequence in which nothing occurs twice holds different values at
      different positions. */
  lemma OnceEachDistinct<T>(s: seq<T>, a: nat, b: nat)
    requires forall x :: multiset(s)[x] <= 1
    requires a < b < |s|
    ensures s[a] != s[b]
  {
    if s[a] == s[b] {
      TwoPositionsTwice(s, a, b);
    }
  }
}
