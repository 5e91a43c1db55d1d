/** Sets of byte ranges of the arena, kept as a map from the first byte of each range to its length. */
module Regions {

  type Regions = map<int, int>

  /** b lies in one of the ranges of m. */
  ghost predicate Covers(m: Regions, b: int) {
    exists s :: s in m && s <= b < s + m[s]
  }

  /** Every range is non-empty and no two of them overlap. */
  ghost predicate Disjoint(m: Regions) {
    && (forall s :: s in m ==> m[s] > 0)
    && (forall s, t :: s in m && t in m && s < t ==> s + m[s] <= t)
  }

  /** Disjoint, and no range starts right where another ends. */
  ghost predicate Apart(m: Regions) {
    && (forall s :: s in m ==> m[s] > 0)
    && (forall s, t :: s in m && t in m && s < t ==> s + m[s] < t)
  }

  /** No range of m meets the n bytes at i. */
  ghost predicate Clear(m: Regions, i: int, n: int) {
    forall s :: s in m ==> s + m[s] <= i || i + n <= s
  }

  /** Number of bytes in m. */
  ghost function Total(m: Regions): int
  {
    if s :| s in m then m[s] + Total(m - {s}) else 0
  }

  lemma {:induction false} TotalRemove(m: Regions, k: int)
    requires k in m
    ensures Total(m) == m[k] + Total(m - {k})
    decreases |m|
  {
    var s :| s in m && Total(m) == m[s] + Total(m - {s});
    if s != k {
      TotalRemove(m - {s}, k);
      TotalRemove(m - {k}, s);
      assert m - {s} - {k} == m - {k} - {s};
    }
  }

  lemma TotalEmpty(m: Regions)
    requires forall s :: s !in m
    ensures Total(m) == 0
  {
  }

  lemma TotalInsert(m: Regions, k: int, n: int)
    requires k !in m
    ensures Total(m[k := n]) == Total(m) + n
  {
    TotalRemove(m[k := n], k);
    assert m[k := n] - {k} == m;
  }

  // ---------------------------------------------------------------- inserting, removing, splitting, joining

  lemma Insert(m: Regions, k: int, n: int)
    requires Disjoint(m) && n > 0 && Clear(m, k, n)
    ensures k !in m && Disjoint(m[k := n])
    ensures forall b :: Covers(m[k := n], b) <==> Covers(m, b) || k <= b < k + n
  {
    var m' := m[k := n];
    forall b ensures Covers(m', b) <==> Covers(m, b) || k <= b < k + n {
      if Covers(m, b) {
        var s :| s in m && s <= b < s + m[s];
        assert s in m' && m'[s] == m[s];
      }
      if k <= b < k + n {
        assert k in m';
      }
    }
  }

  lemma Remove(m: Regions, k: int)
    requires Disjoint(m) && k in m
    ensures Disjoint(m - {k}) && Clear(m - {k}, k, m[k])
    ensures forall b :: Covers(m - {k}, b) <==> Covers(m, b) && !(k <= b < k + m[k])
  {
    var m' := m - {k};
    forall b ensures Covers(m', b) <==> Covers(m, b) && !(k <= b < k + m[k]) {
      if Covers(m, b) && !(k <= b < k + m[k]) {
        var s :| s in m && s <= b < s + m[s];
        assert s in m';
      }
      if Covers(m', b) {
        var s :| s in m' && s <= b < s + m'[s];
        assert s in m;
      }
    }
  }

  /** Cutting a range in two. */
  lemma Split(m: Regions, k: int, n: int)
    requires Disjoint(m) && k in m && 0 < n < m[k]
    ensures var m' := m[k := n][k + n := m[k] - n];
      Disjoint(m') && k + n !in m && forall b :: Covers(m', b) <==> Covers(m, b)
  {
    hide Covers; hide Disjoint;
    var m0 := m - {k};
    Remove(m, k);
    assert Clear(m0, k, n) && Clear(m0, k + n, m[k] - n);
    Insert(m0, k, n);
    var m1 := m0[k := n];
    assert Clear(m1, k + n, m[k] - n);
    Insert(m1, k + n, m[k] - n);
    assert m1[k + n := m[k] - n] == m[k := n][k + n := m[k] - n];
    forall b ensures Covers(m[k := n][k + n := m[k] - n], b) <==> Covers(m, b) {
      CoversAt(m, k, b);
    }
  }

  lemma CoversAt(m: Regions, k: int, b: int)
    requires k in m
    ensures k <= b < k + m[k] ==> Covers(m, b)
  {
  }

  /** Joining a range with the one that starts where it ends. */
  lemma Join(m: Regions, k: int, l: int)
    requires Disjoint(m) && k in m && l in m && l == k + m[k]
    ensures var m' := (m - {l})[k := m[k] + m[l]];
      Disjoint(m') && forall b :: Covers(m', b) <==> Covers(m, b)
  {
    hide Covers; hide Disjoint;
    Remove(m, k);
    var m0 := m - {k};
    assert l != k by { Positive(m, k); }
    Remove(m0, l);
    var m1 := m0 - {l};
    assert Clear(m1, k, m[k] + m[l]);
    Positive(m, k); Positive(m, l);
    Insert(m1, k, m[k] + m[l]);
    assert m1[k := m[k] + m[l]] == (m - {l})[k := m[k] + m[l]];
    forall b ensures Covers((m - {l})[k := m[k] + m[l]], b) <==> Covers(m, b) {
      CoversAt(m, k, b);
      CoversAt(m, l, b);
    }
  }

  lemma Positive(m: Regions, k: int)
    requires Disjoint(m) && k in m
    ensures m[k] > 0
  {
  }

  // ---------------------------------------------------------------- counting

  /** Disjoint ranges that cover exactly [a, b) and [c, d) hold as many bytes as those two runs. */
  lemma {:induction false} TotalOfRuns(m: Regions, a: int, b: int, c: int, d: int)
    requires Disjoint(m) && a <= b && c <= d && (a == b || b < c)
    requires forall x :: Covers(m, x) <==> a <= x < b || c <= x < d
    ensures Total(m) == (b - a) + (d - c)
    decreases b - a, d - c
  {
    if a == b && c == d {
      if s :| s in m {
        CoversAt(m, s, s);
      }
    } else {
      var lo := if a < b then a else c;
      assert Covers(m, lo);
      var s :| s in m && s <= lo < s + m[s];
      CoversAt(m, s, s);
      CoversAt(m, s, s + m[s] - 1);
      if a < b {
        CoversAt(m, s, b);
      }
      assert s == lo;
      TotalRemove(m, s);
      Remove(m, s);
      hide Covers;
      var e := s + m[s];
      if a < b {
        TotalOfRuns(m - {s}, e, b, c, d);
      } else {
        TotalOfRuns(m - {s}, e, e, e, d);
      }
    }
  }
}
