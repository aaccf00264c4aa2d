/** Ranking of scored rows, highest score first. Ties are broken by position,
    which is what the stable `list.sort(key=..., reverse=True)` of the
    two-table search does and one of the orders `np.argsort(...)[::-1]`
    may produce. */
module Ranking {

  /** Row `a` is ranked before row `b`: a higher score, or an equal score and
      an earlier position. */
  predicate Before(s: seq<real>, a: nat, b: nat)
    requires a < |s| && b < |s|
  {
    s[a] > s[b] || (s[a] == s[b] && a < b)
  }

  predicate InRange(s: seq<real>, r: seq<nat>) {
    forall k :: 0 <= k < |r| ==> r[k] < |s|
  }

  /** Strictly ordered by `Before`, hence also duplicate-free. */
  predicate SortedBefore(s: seq<real>, r: seq<nat>) {
    InRange(s, r) && forall a, b :: 0 <= a < b < |r| ==> Before(s, r[a], r[b])
  }

  /** Insert row `x` in front of the first row it is ranked before. */
  function Insert(s: seq<real>, x: nat, r: seq<nat>): (q: seq<nat>)
    requires x < |s| && InRange(s, r)
    ensures |q| == |r| + 1 && InRange(s, q)
    ensures forall y :: y in q <==> y == x || y in r
  {
    if r == [] then [x]
    else if Before(s, x, r[0]) then [x] + r
    else [r[0]] + Insert(s, x, r[1..])
  }

  lemma {:induction false} InsertSorted(s: seq<real>, x: nat, r: seq<nat>)
    requires x < |s| && SortedBefore(s, r) && x !in r
    ensures SortedBefore(s, Insert(s, x, r))
  {
    if r != [] && !Before(s, x, r[0]) {
      assert SortedBefore(s, r[1..]);
      assert x !in r[1..];
      InsertSorted(s, x, r[1..]);
      var q := Insert(s, x, r);
      assert Before(s, r[0], x);
      forall b | 0 < b < |q| ensures Before(s, q[0], q[b]) {
        assert q[b] in Insert(s, x, r[1..]);
        if q[b] != x {
          var k :| 1 <= k < |r| && r[k] == q[b];
        }
      }
    }
  }

  /** The first `n` rows in ranking order. */
  function RankFrom(s: seq<real>, n: nat): (r: seq<nat>)
    requires n <= |s|
    ensures |r| == n && InRange(s, r)
    ensures forall k: int :: k in r <==> 0 <= k < n
  {
    if n == 0 then [] else Insert(s, n - 1, RankFrom(s, n - 1))
  }

  lemma {:induction false} RankFromSorted(s: seq<real>, n: nat)
    requires n <= |s|
    ensures SortedBefore(s, RankFrom(s, n))
  {
    if n > 0 {
      RankFromSorted(s, n - 1);
      InsertSorted(s, n - 1, RankFrom(s, n - 1));
    }
  }

  /** Every row, highest score first. */
  function Ranked(s: seq<real>): (r: seq<nat>)
    ensures |r| == |s| && InRange(s, r)
    ensures forall k: int :: k in r <==> 0 <= k < |s|
    ensures SortedBefore(s, r)
  {
    RankFromSorted(s, |s|);
    RankFrom(s, |s|)
  }

  /** The first `k` of the ranking are the `k` best rows: no row left out
      scores higher than a row taken, scores never increase along the
      ranking, and equal scores keep their original order. */
  lemma TopIsBest(s: seq<real>, k: nat)
    ensures var r := Ranked(s); var m := if k < |r| then k else |r|;
      (forall a, b :: 0 <= a < b < |r| ==> s[r[a]] >= s[r[b]] && (s[r[a]] == s[r[b]] ==> r[a] < r[b])) &&
      (forall j, t :: 0 <= j < |s| && j !in r[..m] && t in r[..m] ==> s[t] >= s[j])
  {
    var r := Ranked(s);
    var m := if k < |r| then k else |r|;
    forall j, t | 0 <= j < |s| && j !in r[..m] && t in r[..m] ensures s[t] >= s[j] {
      assert j in r;
      var pj :| 0 <= pj < |r| && r[pj] == j;
      var pt :| 0 <= pt < m && r[..m][pt] == t;
      assert Before(s, r[pt], r[pj]);
    }
  }
}
