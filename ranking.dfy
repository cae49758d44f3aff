/**
  Ranking by a count, largest first, and keeping the first `n`: Python's
  `sorted(xs, key=rank, reverse=True)[:n]`, which is stable (items of equal
  rank keep their order), and the shape of pandas'
  `sort_values(ascending=False).head(n)` / `value_counts().head(n)`.
 */
module Ranking {

  /** Insert `x` ahead of the first item whose rank is not above its own. */
  function Insert<T>(x: T, s: seq<T>, rank: T -> nat): seq<T>
    decreases |s|
  {
    if s == [] || rank(s[0]) <= rank(x) then [x] + s else [s[0]] + Insert(x, s[1..], rank)
  }

  /** Stable sort by descending rank (insertion sort). */
  function SortDesc<T>(xs: seq<T>, rank: T -> nat): seq<T>
    decreases |xs|
  {
    if xs == [] then [] else Insert(xs[0], SortDesc(xs[1..], rank), rank)
  }

  /** The `n` highest-ranked items, largest first. */
  function TopN<T>(xs: seq<T>, rank: T -> nat, n: nat): seq<T> {
    var s := SortDesc(xs, rank);
    if |s| <= n then s else s[..n]
  }

  ghost predicate Descending<T>(s: seq<T>, rank: T -> nat) {
    forall i, j :: 0 <= i < j < |s| ==> rank(s[i]) >= rank(s[j])
  }

  /** The items of rank `c`, in their order in `s`. */
  function WithRank<T>(s: seq<T>, rank: T -> nat, c: nat): seq<T>
    decreases |s|
  {
    if s == [] then [] else (if rank(s[0]) == c then [s[0]] else []) + WithRank(s[1..], rank, c)
  }

  function SumRank<T>(s: seq<T>, rank: T -> nat): nat
    decreases |s|
  {
    if s == [] then 0 else rank(s[0]) + SumRank(s[1..], rank)
  }

  // ---------------------------------------------------------------- insertion

  lemma {:induction false} InsertPermutes<T>(x: T, s: seq<T>, rank: T -> nat)
    ensures multiset(Insert(x, s, rank)) == multiset(s) + multiset{x}
    ensures SumRank(Insert(x, s, rank), rank) == rank(x) + SumRank(s, rank)
    decreases |s|
  {
    if s != [] && rank(s[0]) > rank(x) {
      InsertPermutes(x, s[1..], rank);
      assert s == [s[0]] + s[1..];
    }
  }

  lemma {:induction false} InsertSorted<T>(x: T, s: seq<T>, rank: T -> nat)
    requires Descending(s, rank)
    ensures Descending(Insert(x, s, rank), rank)
    decreases |s|
  {
    if s != [] && rank(s[0]) > rank(x) {
      var t := Insert(x, s[1..], rank);
      InsertSorted(x, s[1..], rank);
      InsertPermutes(x, s[1..], rank);
      forall y | y in t ensures rank(y) <= rank(s[0]) {
        assert y in multiset(t);
        if y != x {
          assert y in s[1..];
        }
      }
    }
  }

  lemma {:induction false} InsertStable<T>(x: T, s: seq<T>, rank: T -> nat, c: nat)
    ensures WithRank(Insert(x, s, rank), rank, c) == WithRank([x] + s, rank, c)
    decreases |s|
  {
    if s != [] && rank(s[0]) > rank(x) {
      InsertStable(x, s[1..], rank, c);
      var t := Insert(x, s[1..], rank);
      assert ([s[0]] + t)[1..] == t;
      assert ([x] + s)[1..] == s;
      assert ([x] + s[1..])[1..] == s[1..];
      assert s == [s[0]] + s[1..];
      assert ([s[0]] + s[1..])[1..] == s[1..];
    }
  }

  // ---------------------------------------------------------------- sorting

  /**
    The sort returns the same items, largest rank first, and keeps the
    original order among items of equal rank (the stability Python's
    `sorted` guarantees).
   */
  lemma {:induction false} SortDescCorrect<T>(xs: seq<T>, rank: T -> nat)
    ensures multiset(SortDesc(xs, rank)) == multiset(xs)
    ensures Descending(SortDesc(xs, rank), rank)
    ensures forall c :: WithRank(SortDesc(xs, rank), rank, c) == WithRank(xs, rank, c)
    ensures SumRank(SortDesc(xs, rank), rank) == SumRank(xs, rank)
    decreases |xs|
  {
    if xs != [] {
      var rest := SortDesc(xs[1..], rank);
      SortDescCorrect(xs[1..], rank);
      InsertPermutes(xs[0], rest, rank);
      InsertSorted(xs[0], rest, rank);
      assert xs == [xs[0]] + xs[1..];
      forall c ensures WithRank(SortDesc(xs, rank), rank, c) == WithRank(xs, rank, c) {
        InsertStable(xs[0], rest, rank, c);
        assert ([xs[0]] + rest)[1..] == rest;
      }
    }
  }

  lemma {:induction false} WithRankPrefix<T>(s: seq<T>, rank: T -> nat, c: nat, n: nat)
    requires n <= |s|
    ensures WithRank(s[..n], rank, c) <= WithRank(s, rank, c)
    decreases n
  {
    if n > 0 {
      WithRankPrefix(s[1..], rank, c, n - 1);
      assert s[..n][1..] == s[1..][..n - 1];
    }
  }

  lemma {:induction false} SumRankPrefix<T>(s: seq<T>, rank: T -> nat, n: nat)
    requires n <= |s|
    ensures SumRank(s[..n], rank) <= SumRank(s, rank)
    decreases n
  {
    if n > 0 {
      SumRankPrefix(s[1..], rank, n - 1);
      assert s[..n][1..] == s[1..][..n - 1];
    }
  }

  lemma SortDescLength<T>(xs: seq<T>, rank: T -> nat)
    ensures |SortDesc(xs, rank)| == |xs|
  {
    SortDescCorrect(xs, rank);
    assert |multiset(SortDesc(xs, rank))| == |multiset(xs)|;
  }

  /**
    What `sorted(...)[:n]` promises about its shape: at most `n` items, all
    drawn from the input, largest first, and all of the input when it has at
    most `n` items.
   */
  lemma TopNShape<T>(xs: seq<T>, rank: T -> nat, n: nat)
    ensures |TopN(xs, rank, n)| == if |xs| <= n then |xs| else n
    ensures Descending(TopN(xs, rank, n), rank)
    ensures multiset(TopN(xs, rank, n)) <= multiset(xs)
    ensures |xs| <= n ==> multiset(TopN(xs, rank, n)) == multiset(xs)
  {
    var s := SortDesc(xs, rank);
    SortDescCorrect(xs, rank);
    SortDescLength(xs, rank);
    if |s| > n {
      assert s == s[..n] + s[n..];
      assert multiset(s) == multiset(s[..n]) + multiset(s[n..]);
    }
  }

  /** Nothing left out outranks anything kept. */
  lemma TopNKeepsLargest<T>(xs: seq<T>, rank: T -> nat, n: nat)
    ensures forall y, z :: y in xs && y !in TopN(xs, rank, n) && z in TopN(xs, rank, n) ==> rank(y) <= rank(z)
  {
    var s := SortDesc(xs, rank);
    SortDescCorrect(xs, rank);
    var r := TopN(xs, rank, n);
    forall y, z | y in xs && y !in r && z in r ensures rank(y) <= rank(z) {
      assert y in multiset(s);
      var j :| 0 <= j < |s| && s[j] == y;
      var i :| 0 <= i < |r| && r[i] == z;
      assert forall k :: 0 <= k < |r| ==> s[k] in r;
      assert |r| <= j;
    }
  }

  /** Among items of equal rank, the kept ones are a prefix of them in input order. */
  lemma TopNStable<T>(xs: seq<T>, rank: T -> nat, n: nat)
    ensures forall c :: WithRank(TopN(xs, rank, n), rank, c) <= WithRank(xs, rank, c)
  {
    var s := SortDesc(xs, rank);
    SortDescCorrect(xs, rank);
    forall c ensures WithRank(TopN(xs, rank, n), rank, c) <= WithRank(xs, rank, c) {
      if |s| > n {
        WithRankPrefix(s, rank, c, n);
      }
    }
  }

  /** The kept ranks add up to no more than the input's. */
  lemma TopNSum<T>(xs: seq<T>, rank: T -> nat, n: nat)
    ensures SumRank(TopN(xs, rank, n), rank) <= SumRank(xs, rank)
  {
    var s := SortDesc(xs, rank);
    SortDescCorrect(xs, rank);
    if |s| > n {
      SumRankPrefix(s, rank, n);
    }
  }

  // ---------------------------------------------------------------- distinct keys

  lemma CountTwice<T>(s: seq<T>, i: nat, j: nat)
    requires i < j < |s| && s[i] == s[j]
    ensures multiset(s)[s[i]] >= 2
  {
    assert s == s[..i] + [s[i]] + s[i + 1..j] + [s[j]] + s[j + 1..];
  }

  lemma CountOnce<T, K>(xs: seq<T>, a: nat, key: T -> K)
    requires a < |xs|
    requires forall i, j :: 0 <= i < j < |xs| ==> key(xs[i]) != key(xs[j])
    ensures multiset(xs)[xs[a]] == 1
  {
    var x := xs[a];
    assert xs == xs[..a] + [x] + xs[a + 1..];
    assert x !in xs[..a] by {
      forall m | 0 <= m < a ensures xs[m] != x {
        assert key(xs[m]) != key(xs[a]);
      }
    }
    assert x !in xs[a + 1..] by {
      forall m | a + 1 <= m < |xs| ensures xs[m] != x {
        assert key(xs[a]) != key(xs[m]);
      }
    }
  }

  /** Keeping the top of a list whose items have distinct keys keeps the keys distinct. */
  lemma TopNDistinct<T, K>(xs: seq<T>, rank: T -> nat, n: nat, key: T -> K)
    requires forall i, j :: 0 <= i < j < |xs| ==> key(xs[i]) != key(xs[j])
    ensures forall i, j :: 0 <= i < j < |TopN(xs, rank, n)| ==> key(TopN(xs, rank, n)[i]) != key(TopN(xs, rank, n)[j])
  {
    var top := TopN(xs, rank, n);
    TopNShape(xs, rank, n);
    forall i, j | 0 <= i < j < |top| ensures key(top[i]) != key(top[j]) {
      if key(top[i]) == key(top[j]) {
        assert top[i] in multiset(xs) && top[j] in multiset(xs);
        var a :| 0 <= a < |xs| && xs[a] == top[i];
        var b :| 0 <= b < |xs| && xs[b] == top[j];
        assert a == b;
        CountTwice(top, i, j);
        CountOnce(xs, a, key);
      }
    }
  }
}
