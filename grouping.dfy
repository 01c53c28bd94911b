/** The SQL shapes the metrics share: `GROUP BY key` with `COUNT(*)`,
    `ORDER BY ... DESC` (ties in any order), and `LIMIT n`. A group list is
    a sequence of (key, count) pairs. */
module Grouping {

  /** How many of `keys` equal `k`. */
  function Occurrences<K(==,!new)>(keys: seq<K>, k: K): (n: nat)
    ensures n <= |keys|
    ensures n > 0 <==> k in keys
  {
    if |keys| == 0 then 0
    else
      var init := keys[..|keys| - 1];
      assert keys == init + [keys[|keys| - 1]];
      Occurrences(init, k) + (if keys[|keys| - 1] == k then 1 else 0)
  }

  function SumCounts<K>(g: seq<(K, nat)>): nat {
    if |g| == 0 then 0 else g[0].1 + SumCounts(g[1..])
  }

  predicate HasKey<K(==,!new)>(g: seq<(K, nat)>, k: K) {
    exists i :: 0 <= i < |g| && g[i].0 == k
  }

  predicate KeysDistinct<K(==,!new)>(g: seq<(K, nat)>) {
    forall i, j :: 0 <= i < j < |g| ==> g[i].0 != g[j].0
  }

  predicate Positive<K>(g: seq<(K, nat)>) {
    forall i :: 0 <= i < |g| ==> g[i].1 >= 1
  }

  /** The count recorded for `k` (0 when there is no group for `k`). */
  function CountOf<K(==,!new)>(g: seq<(K, nat)>, k: K): (n: nat)
    ensures !HasKey(g, k) ==> n == 0
  {
    if |g| == 0 then 0 else if g[0].0 == k then g[0].1 else CountOf(g[1..], k)
  }

  /** One more row with key `k`: its group's count goes up by one, or a new
      group with count 1 is opened after the existing ones. */
  function Bump<K(==,!new)>(g: seq<(K, nat)>, k: K): (r: seq<(K, nat)>)
    ensures forall x :: CountOf(r, x) == CountOf(g, x) + (if x == k then 1 else 0)
    ensures SumCounts(r) == SumCounts(g) + 1
  {
    if |g| == 0 then [(k, 1)]
    else if g[0].0 == k then [(k, g[0].1 + 1)] + g[1..]
    else [g[0]] + Bump(g[1..], k)
  }

  lemma HasKeyCons<K(!new)>(e: (K, nat), g: seq<(K, nat)>, x: K)
    ensures HasKey([e] + g, x) <==> e.0 == x || HasKey(g, x)
  {
    if HasKey([e] + g, x) && e.0 != x {
      var i :| 0 <= i < |[e] + g| && ([e] + g)[i].0 == x;
      assert g[i - 1].0 == x;
    }
    if HasKey(g, x) {
      var i :| 0 <= i < |g| && g[i].0 == x;
      assert ([e] + g)[i + 1].0 == x;
    }
    if e.0 == x {
      assert ([e] + g)[0].0 == x;
    }
  }

  lemma KeysDistinctCons<K(!new)>(e: (K, nat), g: seq<(K, nat)>)
    ensures KeysDistinct([e] + g) <==> !HasKey(g, e.0) && KeysDistinct(g)
  {
    var r := [e] + g;
    if KeysDistinct(r) {
      forall i, j | 0 <= i < j < |g| ensures g[i].0 != g[j].0 {
        assert r[i + 1] == g[i] && r[j + 1] == g[j];
      }
      forall i | 0 <= i < |g| ensures g[i].0 != e.0 {
        assert r[0] == e && r[i + 1] == g[i];
      }
    }
    if !HasKey(g, e.0) && KeysDistinct(g) {
      forall i, j | 0 <= i < j < |r| ensures r[i].0 != r[j].0 {
        assert r[j] == g[j - 1];
        if i > 0 {
          assert r[i] == g[i - 1];
        }
      }
    }
  }

  /** Bumping keeps one group per key, and opens a group only for `k`. */
  lemma {:induction false} BumpKeys<K(!new)>(g: seq<(K, nat)>, k: K)
    ensures forall x :: HasKey(Bump(g, k), x) <==> HasKey(g, x) || x == k
    ensures KeysDistinct(g) ==> KeysDistinct(Bump(g, k))
    ensures Positive(g) ==> Positive(Bump(g, k))
  {
    var r := Bump(g, k);
    if |g| == 0 {
      assert r[0].0 == k;
    } else {
      assert g == [g[0]] + g[1..];
      var e := if g[0].0 == k then (k, g[0].1 + 1) else g[0];
      var rest := if g[0].0 == k then g[1..] else Bump(g[1..], k);
      assert r == [e] + rest;
      if g[0].0 != k {
        BumpKeys(g[1..], k);
      }
      forall x ensures HasKey(r, x) <==> HasKey(g, x) || x == k {
        HasKeyCons(e, rest, x);
        HasKeyCons(g[0], g[1..], x);
      }
      KeysDistinctCons(e, rest);
      KeysDistinctCons(g[0], g[1..]);
    }
  }

  /** `GROUP BY key` with `COUNT(*)`: one group per distinct key, in order
      of first appearance, counting the rows that carry it. */
  function GroupCount<K(==,!new)>(keys: seq<K>): (g: seq<(K, nat)>)
    ensures forall k :: CountOf(g, k) == Occurrences(keys, k)
    ensures SumCounts(g) == |keys|
  {
    if |keys| == 0 then []
    else
      var init := keys[..|keys| - 1];
      assert keys == init + [keys[|keys| - 1]];
      Bump(GroupCount(init), keys[|keys| - 1])
  }

  /** The groups are exactly the distinct keys, each with a positive count. */
  lemma {:induction false} GroupCountKeys<K(!new)>(keys: seq<K>)
    ensures KeysDistinct(GroupCount(keys)) && Positive(GroupCount(keys))
    ensures forall k :: HasKey(GroupCount(keys), k) <==> k in keys
  {
    if |keys| > 0 {
      var init := keys[..|keys| - 1];
      assert keys == init + [keys[|keys| - 1]];
      GroupCountKeys(init);
      BumpKeys(GroupCount(init), keys[|keys| - 1]);
    }
  }

  /** With distinct keys, an entry's count is the count recorded for its key. */
  lemma {:induction false} CountOfEntry<K(!new)>(g: seq<(K, nat)>, i: nat)
    requires KeysDistinct(g) && i < |g|
    ensures CountOf(g, g[i].0) == g[i].1
  {
    if i > 0 {
      assert g == [g[0]] + g[1..];
      KeysDistinctCons(g[0], g[1..]);
      CountOfEntry(g[1..], i - 1);
    }
  }

  /** Rows ordered by `rank`, largest first. */
  predicate NonIncreasing<K>(s: seq<(K, nat)>, rank: ((K, nat)) -> int) {
    forall i, j :: 0 <= i < j < |s| ==> rank(s[i]) >= rank(s[j])
  }

  function ByCount<K>(e: (K, nat)): int {
    e.1
  }

  function ByKeyAscending(e: (int, nat)): int {
    -e.0
  }

  lemma SumCountsCons<K(!new)>(e: (K, nat), s: seq<(K, nat)>)
    ensures SumCounts([e] + s) == e.1 + SumCounts(s)
  {
    assert ([e] + s)[1..] == s;
  }

  /** Insert `e` into a list ordered by `rank`, after every entry ranked at
      least as high. */
  function Insert<K>(e: (K, nat), s: seq<(K, nat)>, rank: ((K, nat)) -> int): (r: seq<(K, nat)>)
    requires NonIncreasing(s, rank)
    ensures |r| == |s| + 1
    ensures multiset(r) == multiset(s) + multiset{e}
    ensures NonIncreasing(r, rank)
  {
    if |s| == 0 || rank(s[0]) < rank(e) then
      PrependOrdered(e, s, rank);
      [e] + s
    else
      var rest := Insert(e, s[1..], rank);
      assert s == [s[0]] + s[1..];
      forall j | 0 <= j < |rest| ensures rank(s[0]) >= rank(rest[j]) {
        InsertedFrom(e, s[1..], rest, j);
      }
      PrependOrdered(s[0], rest, rank);
      [s[0]] + rest
  }

  /** An entry ranked at least as high as the head of an ordered list can
      go in front of it. */
  lemma PrependOrdered<K>(e: (K, nat), s: seq<(K, nat)>, rank: ((K, nat)) -> int)
    requires NonIncreasing(s, rank)
    requires |s| == 0 || rank(e) >= rank(s[0])
    ensures NonIncreasing([e] + s, rank)
  {
    var r := [e] + s;
    forall i, j | 0 <= i < j < |r| ensures rank(r[i]) >= rank(r[j]) {
      assert r[j] == s[j - 1];
      if i > 0 {
        assert r[i] == s[i - 1];
      }
    }
  }

  /** Every entry of `r`, a permutation of `s` plus `e`, is `e` or one of `s`. */
  lemma InsertedFrom<K>(e: (K, nat), s: seq<(K, nat)>, r: seq<(K, nat)>, j: nat)
    requires multiset(r) == multiset(s) + multiset{e} && j < |r|
    ensures r[j] == e || exists k :: 0 <= k < |s| && s[k] == r[j]
  {
    assert r[j] in multiset(r);
    if r[j] != e {
      assert r[j] in multiset(s);
    }
  }

  /** `ORDER BY rank DESC`: an insertion sort, so ties keep no particular order. */
  function SortDesc<K>(s: seq<(K, nat)>, rank: ((K, nat)) -> int): (r: seq<(K, nat)>)
    ensures |r| == |s|
    ensures multiset(r) == multiset(s)
    ensures NonIncreasing(r, rank)
  {
    if |s| == 0 then []
    else
      assert s == [s[0]] + s[1..];
      Insert(s[0], SortDesc(s[1..], rank), rank)
  }

  /** Where the first row of `s` sits in its permutation `t`, and what is
      left of both once it is taken out. */
  lemma MatchFirst<K(!new)>(s: seq<(K, nat)>, t: seq<(K, nat)>) returns (i: nat)
    requires multiset(s) == multiset(t) && |s| > 0
    ensures i < |t| && t[i] == s[0]
    ensures t == t[..i] + [s[0]] + t[i + 1..]
    ensures multiset(s[1..]) == multiset(t[..i] + t[i + 1..])
  {
    var e := s[0];
    assert e in multiset(t);
    i :| 0 <= i < |t| && t[i] == e;
    var t' := t[..i] + t[i + 1..];
    assert t == t[..i] + [e] + t[i + 1..];
    assert s == [e] + s[1..];
    assert multiset(t) == multiset(t[..i]) + multiset{e} + multiset(t[i + 1..]);
    assert multiset(t') == multiset(t[..i]) + multiset(t[i + 1..]);
    assert multiset{e} + multiset(s[1..]) == multiset{e} + multiset(t');
    forall x ensures multiset(s[1..])[x] == multiset(t')[x] {
      assert (multiset{e} + multiset(s[1..]))[x] == (multiset{e} + multiset(t'))[x];
    }
  }

  /** Reordering rows does not change the total count. */
  lemma {:induction false} PermutationKeepsSum<K(!new)>(s: seq<(K, nat)>, t: seq<(K, nat)>)
    requires multiset(s) == multiset(t)
    ensures SumCounts(s) == SumCounts(t)
    decreases |s|
  {
    if |s| > 0 {
      var i := MatchFirst(s, t);
      PermutationKeepsSum(s[1..], t[..i] + t[i + 1..]);
      assert s == [s[0]] + s[1..];
      SumCountsCons(s[0], s[1..]);
      SumCountsSplit(t[..i], s[0], t[i + 1..]);
    } else {
      assert |t| == |multiset(t)| == 0;
    }
  }

  /** Reordering rows keeps the keys distinct. */
  lemma {:induction false} PermutationKeepsDistinct<K(!new)>(s: seq<(K, nat)>, t: seq<(K, nat)>)
    requires multiset(s) == multiset(t) && KeysDistinct(s)
    ensures KeysDistinct(t)
    decreases |s|
  {
    if |s| > 0 {
      var e := s[0];
      var i := MatchFirst(s, t);
      var t' := t[..i] + t[i + 1..];
      assert s == [e] + s[1..];
      KeysDistinctCons(e, s[1..]);
      PermutationKeepsDistinct(s[1..], t');
      forall j | 0 <= j < |t'| ensures t'[j].0 != e.0 {
        assert t'[j] in multiset(s[1..]);
        var k :| 0 <= k < |s[1..]| && s[1..][k] == t'[j];
      }
      forall a, b | 0 <= a < b < |t| ensures t[a].0 != t[b].0 {
        if a == i {
          assert t[b] == t'[b - 1];
        } else if b == i {
          assert t[a] == t'[a];
        } else {
          var a' := if a < i then a else a - 1;
          var b' := if b < i then b else b - 1;
          assert t[a] == t'[a'] && t[b] == t'[b'];
        }
      }
    }
  }

  lemma {:induction false} SumCountsSplit<K(!new)>(a: seq<(K, nat)>, e: (K, nat), b: seq<(K, nat)>)
    ensures SumCounts(a + [e] + b) == SumCounts(a + b) + e.1
    decreases |a|
  {
    if |a| == 0 {
      assert a + [e] + b == [e] + b;
      assert a + b == b;
      SumCountsCons(e, b);
    } else {
      assert a + [e] + b == [a[0]] + (a[1..] + [e] + b);
      assert a + b == [a[0]] + (a[1..] + b);
      SumCountsSplit(a[1..], e, b);
      SumCountsCons(a[0], a[1..] + [e] + b);
      SumCountsCons(a[0], a[1..] + b);
    }
  }

  /** `GROUP BY key ... ORDER BY rank DESC`. */
  function GroupAndSort<K(==,!new)>(keys: seq<K>, rank: ((K, nat)) -> int): (r: seq<(K, nat)>)
    ensures NonIncreasing(r, rank)
  {
    SortDesc(GroupCount(keys), rank)
  }

  /** After sorting, each group's key is one of `keys` and its count is
      the number of rows carrying that key; keys stay distinct. */
  lemma GroupAndSortCounts<K(!new)>(keys: seq<K>, rank: ((K, nat)) -> int, i: nat)
    requires i < |GroupAndSort(keys, rank)|
    ensures var r := GroupAndSort(keys, rank);
      r[i].0 in keys && r[i].1 == Occurrences(keys, r[i].0) && r[i].1 >= 1
  {
    var g := GroupCount(keys);
    var r := SortDesc(g, rank);
    GroupCountKeys(keys);
    assert r[i] in multiset(g);
    var j :| 0 <= j < |g| && g[j] == r[i];
    CountOfEntry(g, j);
    assert HasKey(g, g[j].0);
  }

  /** After sorting, every key of `keys` still has its group. */
  lemma GroupAndSortCovers<K(!new)>(keys: seq<K>, rank: ((K, nat)) -> int, k: K)
    requires k in keys
    ensures HasKey(GroupAndSort(keys, rank), k)
  {
    var g := GroupCount(keys);
    var r := SortDesc(g, rank);
    GroupCountKeys(keys);
    assert HasKey(g, k);
    var j :| 0 <= j < |g| && g[j].0 == k;
    assert g[j] in multiset(r);
    var i :| 0 <= i < |r| && r[i] == g[j];
    assert r[i].0 == k;
  }

  /** After sorting there is one group per key, and the counts add up to
      the number of rows. */
  lemma GroupAndSortTotals<K(!new)>(keys: seq<K>, rank: ((K, nat)) -> int)
    ensures KeysDistinct(GroupAndSort(keys, rank))
    ensures SumCounts(GroupAndSort(keys, rank)) == |keys|
  {
    GroupCountKeys(keys);
    PermutationKeepsSum(GroupCount(keys), GroupAndSort(keys, rank));
    PermutationKeepsDistinct(GroupCount(keys), GroupAndSort(keys, rank));
  }

  /** `GROUP BY k ORDER BY k`: the keys come out strictly ascending. */
  lemma AscendingKeys(keys: seq<int>)
    ensures var r := GroupAndSort(keys, ByKeyAscending);
      forall i, j :: 0 <= i < j < |r| ==> r[i].0 < r[j].0
  {
    var r := GroupAndSort(keys, ByKeyAscending);
    GroupAndSortTotals(keys, ByKeyAscending);
    forall i, j | 0 <= i < j < |r| ensures r[i].0 < r[j].0 {
      assert ByKeyAscending(r[i]) >= ByKeyAscending(r[j]);
      assert r[i].0 != r[j].0;
    }
  }

  /** SQL `LIMIT n`; a negative limit means no limit in SQLite. */
  function Limit<T>(s: seq<T>, n: int): (r: seq<T>)
    ensures r <= s
    ensures n < 0 ==> r == s
    ensures n >= 0 ==> |r| == if n < |s| then n else |s|
  {
    if n < 0 || n >= |s| then s else s[..n]
  }

  /** `ORDER BY ... DESC LIMIT n` yields a top-n list: nothing left out
      ranks above anything kept. */
  lemma LimitKeepsTop<K(!new)>(s: seq<(K, nat)>, n: int, rank: ((K, nat)) -> int)
    requires NonIncreasing(s, rank)
    ensures NonIncreasing(Limit(s, n), rank)
    ensures forall i, j :: 0 <= i < |Limit(s, n)| <= j < |s| ==> rank(s[j]) <= rank(Limit(s, n)[i])
  {
  }
}
