/** The two pandas idioms the dashboard page leans on: `groupby(key).agg(sum)` over a
    numeric column, and `sort_values(column, ascending=False)`. Rows are (key, value)
    pairs; a null key or value is removed or zeroed by the caller (see `Present`). */
module Tally {
  import opened Wrappers

  /** The label the dashboard gives to the categories it folds together: the tail of the
      top-N breakdown and the categories outside the top k of the composition chart. */
  const Others: string := "Autres"

  /** `groupby` drops rows whose key is null; `sum` skips null values. */
  function Present<K>(rows: seq<(Option<K>, Option<real>)>): (r: seq<(K, real)>)
    ensures |r| <= |rows|
  {
    if rows == [] then []
    else
      var init := Present(rows[..|rows| - 1]);
      var x := rows[|rows| - 1];
      if x.0.None? then init
      else init + [(x.0.value, ValueOrZero(x.1))]
  }

  /** A null value counts as 0 in a sum. */
  function ValueOrZero(v: Option<real>): real {
    if v.Some? then v.value else 0.0
  }

  /** Filtering distributes over concatenation: the rows are kept or dropped one by one,
      in order. */
  lemma {:induction false} PresentAppend<K>(a: seq<(Option<K>, Option<real>)>, b: seq<(Option<K>, Option<real>)>)
    ensures Present(a + b) == Present(a) + Present(b)
    decreases |b|
  {
    if b == [] {
      assert a + b == a;
    } else {
      var b' := b[..|b| - 1];
      assert (a + b)[..|a + b| - 1] == a + b';
      assert (a + b)[|a + b| - 1] == b[|b| - 1];
      PresentAppend(a, b');
    }
  }

  /** When every row has a key, every row is kept in place, with a null value read as 0. */
  lemma {:induction false} PresentAllKeyed<K>(rows: seq<(Option<K>, Option<real>)>)
    requires forall i :: 0 <= i < |rows| ==> rows[i].0.Some?
    ensures |Present(rows)| == |rows|
    ensures forall i :: 0 <= i < |rows| ==> Present(rows)[i] == (rows[i].0.value, ValueOrZero(rows[i].1))
    decreases |rows|
  {
    if rows != [] {
      var init := rows[..|rows| - 1];
      PresentAllKeyed(init);
      assert forall i :: 0 <= i < |init| ==> Present(rows)[i] == Present(init)[i] && init[i] == rows[i];
    }
  }

  /** Rows without a key are all dropped. */
  lemma {:induction false} PresentNoneKeyed<K>(rows: seq<(Option<K>, Option<real>)>)
    requires forall i :: 0 <= i < |rows| ==> rows[i].0.None?
    ensures Present(rows) == []
    decreases |rows|
  {
    if rows != [] {
      PresentNoneKeyed(rows[..|rows| - 1]);
    }
  }

  // ---------------------------------------------------------------------------
  // Totals
  // ---------------------------------------------------------------------------

  /** The sum of the values whose key satisfies `p`. */
  function TotalWhere<K>(rows: seq<(K, real)>, p: K -> bool): real {
    if rows == [] then 0.0
    else (if p(rows[0].0) then rows[0].1 else 0.0) + TotalWhere(rows[1..], p)
  }

  /** The sum of all values. */
  function Total<K>(rows: seq<(K, real)>): real {
    if rows == [] then 0.0 else rows[0].1 + Total(rows[1..])
  }

  lemma {:induction false} TotalAppend<K>(a: seq<(K, real)>, b: seq<(K, real)>)
    ensures Total(a + b) == Total(a) + Total(b)
    decreases |a|
  {
    if a == [] {
      assert a + b == b;
    } else {
      assert (a + b)[1..] == a[1..] + b;
      TotalAppend(a[1..], b);
    }
  }

  lemma {:induction false} TotalWhereAppend<K>(a: seq<(K, real)>, b: seq<(K, real)>, p: K -> bool)
    ensures TotalWhere(a + b, p) == TotalWhere(a, p) + TotalWhere(b, p)
    decreases |a|
  {
    if a == [] {
      assert a + b == b;
    } else {
      assert (a + b)[1..] == a[1..] + b;
      TotalWhereAppend(a[1..], b, p);
    }
  }

  // ---------------------------------------------------------------------------
  // groupby(key).agg(sum)
  // ---------------------------------------------------------------------------

  predicate KeysDistinct<K(==)>(gs: seq<(K, real)>) {
    forall i, j :: 0 <= i < j < |gs| ==> gs[i].0 != gs[j].0
  }

  /** With distinct keys, no group occurs twice. */
  lemma {:induction false} OccursOnce<K>(g: seq<(K, real)>, x: (K, real))
    requires KeysDistinct(g)
    ensures multiset(g)[x] <= 1
    decreases |g|
  {
    if g != [] {
      assert KeysDistinct(g[1..]) by {
        forall i, j | 0 <= i < j < |g[1..]| ensures g[1..][i].0 != g[1..][j].0 {
          assert g[1..][i] == g[i + 1] && g[1..][j] == g[j + 1];
        }
      }
      OccursOnce(g[1..], x);
      assert g == [g[0]] + g[1..];
      if g[0] == x {
        forall i | 0 <= i < |g[1..]| ensures g[1..][i] != x {
          assert g[1..][i] == g[i + 1];
        }
      }
    }
  }

  /** A rearrangement of groups with distinct keys has distinct keys. */
  lemma KeysDistinctPermutation<K>(g: seq<(K, real)>, s: seq<(K, real)>)
    requires KeysDistinct(g) && multiset(s) == multiset(g)
    ensures KeysDistinct(s)
  {
    forall i, j | 0 <= i < j < |s| ensures s[i].0 != s[j].0 {
      SameKeyDistinct(g, s, i, j);
    }
  }

  lemma SameKeyDistinct<K>(g: seq<(K, real)>, s: seq<(K, real)>, i: nat, j: nat)
    requires KeysDistinct(g) && multiset(s) == multiset(g) && i < j < |s|
    ensures s[i].0 != s[j].0
  {
    if s[i].0 == s[j].0 {
      assert s[i] in multiset(g) && s[j] in multiset(g);
      var a :| 0 <= a < |g| && g[a] == s[i];
      var b :| 0 <= b < |g| && g[b] == s[j];
      assert a == b;
      TwiceCounted(s, i, j);
      OccursOnce(g, s[i]);
    }
  }

  lemma TwiceCounted<T>(s: seq<T>, i: nat, j: nat)
    requires i < j < |s| && s[i] == s[j]
    ensures multiset(s)[s[i]] >= 2
  {
    assert s == s[..j] + s[j..];
    assert s[i] in s[..j] && s[j] in s[j..];
  }

  /** The value held for key `k`, if a group has it. */
  function Find<K(==)>(gs: seq<(K, real)>, k: K): Option<real> {
    if gs == [] then None
    else if gs[0].0 == k then Some(gs[0].1)
    else Find(gs[1..], k)
  }

  /** A key is found exactly when some group has it. */
  lemma {:induction false} FindNone<K>(gs: seq<(K, real)>, k: K)
    ensures Find(gs, k).None? <==> forall i :: 0 <= i < |gs| ==> gs[i].0 != k
    decreases |gs|
  {
    if gs != [] {
      FindNone(gs[1..], k);
      assert forall i :: 1 <= i < |gs| ==> gs[i] == gs[1..][i - 1];
    }
  }

  /** The sum of the values of the rows with key `k`; `None` when there is none. */
  function SumOf<K(==)>(rows: seq<(K, real)>, k: K): (r: Option<real>)
    ensures r.None? <==> forall i :: 0 <= i < |rows| ==> rows[i].0 != k
  {
    if rows == [] then None
    else
      var prev := SumOf(rows[..|rows| - 1], k);
      var x := rows[|rows| - 1];
      if x.0 != k then prev
      else Some(if prev.None? then x.1 else prev.value + x.1)
  }

  /** With distinct keys, the sum of a key is its one group's value. */
  lemma SumOfDistinct<K>(gs: seq<(K, real)>, k: K)
    requires KeysDistinct(gs)
    ensures SumOf(gs, k) == Find(gs, k)
  {
    FindNone(gs, k);
    if i :| 0 <= i < |gs| && gs[i].0 == k {
      FindDistinct(gs, i);
      SumOfOne(gs, i);
    }
  }

  lemma {:induction false} SumOfOne<K>(gs: seq<(K, real)>, i: nat)
    requires KeysDistinct(gs) && i < |gs|
    ensures SumOf(gs, gs[i].0) == Some(gs[i].1)
    decreases |gs|
  {
    var init := gs[..|gs| - 1];
    if i < |gs| - 1 {
      assert init[i] == gs[i];
      SumOfOne(init, i);
    } else {
      assert forall j :: 0 <= j < |init| ==> init[j].0 != gs[i].0;
    }
  }

  /** With distinct keys, a group's key finds that group. */
  lemma {:induction false} FindDistinct<K>(gs: seq<(K, real)>, i: nat)
    requires KeysDistinct(gs) && i < |gs|
    ensures Find(gs, gs[i].0) == Some(gs[i].1)
    decreases i
  {
    if i > 0 {
      assert gs[1..][i - 1] == gs[i];
      FindDistinct(gs[1..], i - 1);
    }
  }

  /** Adds value `v` to the first group of key `k`, opening a group at the end when there
      is none. */
  function Upsert<K(==)>(gs: seq<(K, real)>, k: K, v: real): seq<(K, real)> {
    if gs == [] then [(k, v)]
    else if gs[0].0 == k then [(k, gs[0].1 + v)] + gs[1..]
    else [gs[0]] + Upsert(gs[1..], k, v)
  }

  /** Upserting brings no key but `k`, and keeps the keys distinct. */
  lemma {:induction false} UpsertKeys<K>(gs: seq<(K, real)>, k: K, v: real)
    ensures forall j :: 0 <= j < |Upsert(gs, k, v)| ==>
      Upsert(gs, k, v)[j].0 == k || exists i :: 0 <= i < |gs| && gs[i].0 == Upsert(gs, k, v)[j].0
    ensures KeysDistinct(gs) ==> KeysDistinct(Upsert(gs, k, v))
    decreases |gs|
  {
    var r := Upsert(gs, k, v);
    if gs == [] {
    } else if gs[0].0 == k {
      assert r[1..] == gs[1..];
      forall j | 0 < j < |r| ensures r[j].0 == k || exists i :: 0 <= i < |gs| && gs[i].0 == r[j].0 {
        assert r[j] == gs[j];
      }
    } else {
      var tail := Upsert(gs[1..], k, v);
      UpsertKeys(gs[1..], k, v);
      assert r[1..] == tail && r[0] == gs[0];
      forall j | 0 < j < |r| ensures r[j].0 == k || exists i :: 0 <= i < |gs| && gs[i].0 == r[j].0 {
        assert r[j] == tail[j - 1];
        if tail[j - 1].0 != k {
          var i :| 0 <= i < |gs[1..]| && gs[1..][i].0 == tail[j - 1].0;
          assert gs[i + 1].0 == r[j].0;
        }
      }
      if KeysDistinct(gs) {
        forall j | 0 <= j < |tail| ensures tail[j].0 != gs[0].0 {
          if tail[j].0 != k {
            var i :| 0 <= i < |gs[1..]| && gs[1..][i].0 == tail[j].0;
            assert gs[1..][i] == gs[i + 1];
          }
        }
        assert KeysDistinct(gs[1..]) by {
          forall i, j | 0 <= i < j < |gs[1..]| ensures gs[1..][i].0 != gs[1..][j].0 {
            assert gs[1..][i] == gs[i + 1] && gs[1..][j] == gs[j + 1];
          }
        }
        forall i, j | 0 <= i < j < |r| ensures r[i].0 != r[j].0 {
          if i == 0 {
            assert r[j] == tail[j - 1];
          } else {
            assert r[i] == tail[i - 1] && r[j] == tail[j - 1];
          }
        }
      }
    }
  }

  /** Upserting changes the sum of key `k` only, by `v` (from nothing when `k` is new). */
  lemma {:induction false} UpsertFind<K>(gs: seq<(K, real)>, k: K, v: real, k': K)
    ensures Find(Upsert(gs, k, v), k') ==
      if k' != k then Find(gs, k')
      else Some(if Find(gs, k).None? then v else Find(gs, k).value + v)
    decreases |gs|
  {
    var r := Upsert(gs, k, v);
    if gs == [] {
      assert r == [(k, v)];
    } else if gs[0].0 == k {
      assert r[0] == (k, gs[0].1 + v) && r[1..] == gs[1..];
      assert Find(gs, k) == Some(gs[0].1);
    } else {
      var tail := Upsert(gs[1..], k, v);
      assert r[0] == gs[0] && r[1..] == tail;
      if k' != gs[0].0 {
        assert Find(r, k') == Find(tail, k');
        assert Find(gs, k') == Find(gs[1..], k');
        UpsertFind(gs[1..], k, v, k');
        if k' == k {
          assert Find(gs, k) == Find(gs[1..], k);
        }
      }
    }
  }

  /** Upserting adds `v` to every total that counts `k`. */
  lemma {:induction false} UpsertTotal<K>(gs: seq<(K, real)>, k: K, v: real, p: K -> bool)
    ensures TotalWhere(Upsert(gs, k, v), p) == TotalWhere(gs, p) + (if p(k) then v else 0.0)
    decreases |gs|
  {
    var r := Upsert(gs, k, v);
    if gs == [] {
    } else if gs[0].0 == k {
      assert r[1..] == gs[1..];
    } else {
      UpsertTotal(gs[1..], k, v, p);
      assert r[1..] == Upsert(gs[1..], k, v);
    }
  }

  /** `groupby(key).agg(sum)`: one group per key present, holding the sum over its rows
      (`GroupSumFind`, `GroupSumDistinct`). */
  function GroupSum<K(==)>(rows: seq<(K, real)>): seq<(K, real)> {
    if rows == [] then []
    else
      var prev := GroupSum(rows[..|rows| - 1]);
      var x := rows[|rows| - 1];
      Upsert(prev, x.0, x.1)
  }

  /** One group per key. */
  lemma {:induction false} GroupSumDistinct<K>(rows: seq<(K, real)>)
    ensures KeysDistinct(GroupSum(rows))
    decreases |rows|
  {
    if rows != [] {
      var init := rows[..|rows| - 1];
      var x := rows[|rows| - 1];
      GroupSumDistinct(init);
      UpsertKeys(GroupSum(init), x.0, x.1);
    }
  }

  /** The group of key `k` holds the sum over the rows with key `k`, and there is none when
      no row has key `k`. */
  lemma {:induction false} GroupSumFind<K>(rows: seq<(K, real)>, k: K)
    ensures Find(GroupSum(rows), k) == SumOf(rows, k)
    decreases |rows|
  {
    if rows != [] {
      var init := rows[..|rows| - 1];
      var x := rows[|rows| - 1];
      assert GroupSum(rows) == Upsert(GroupSum(init), x.0, x.1);
      GroupSumFind(init, k);
      UpsertFind(GroupSum(init), x.0, x.1, k);
    }
  }

  /** Grouping keeps every partial total: summing the groups whose key satisfies `p` gives the
      sum over the rows whose key satisfies `p`. */
  lemma {:induction false} GroupSumTotalWhere<K>(rows: seq<(K, real)>, p: K -> bool)
    ensures TotalWhere(GroupSum(rows), p) == TotalWhere(rows, p)
    decreases |rows|
  {
    if rows != [] {
      var init := rows[..|rows| - 1];
      var x := rows[|rows| - 1];
      var g := GroupSum(init);
      var v := if p(x.0) then x.1 else 0.0;
      assert GroupSum(rows) == Upsert(g, x.0, x.1);
      GroupSumTotalWhere(init, p);
      UpsertTotal(g, x.0, x.1, p);
      assert TotalWhere(GroupSum(rows), p) == TotalWhere(init, p) + v;
      assert rows == init + [x];
      TotalWhereAppend(init, [x], p);
      assert TotalWhere([x], p) == v;
    }
  }

  /** A total is the partial total of every key. */
  lemma {:induction false} TotalIsTotalWhere<K>(rows: seq<(K, real)>)
    ensures Total(rows) == TotalWhere(rows, _ => true)
    decreases |rows|
  {
    if rows != [] {
      TotalIsTotalWhere(rows[1..]);
    }
  }

  /** Grouping keeps the grand total. */
  lemma GroupSumTotal<K>(rows: seq<(K, real)>)
    ensures Total(GroupSum(rows)) == Total(rows)
  {
    GroupSumTotalWhere(rows, _ => true);
    TotalIsTotalWhere(rows);
    TotalIsTotalWhere(GroupSum(rows));
  }

  // ---------------------------------------------------------------------------
  // sort_values(ascending=False)
  // ---------------------------------------------------------------------------

  /** Non-increasing in `key`. */
  predicate Descending<T>(s: seq<T>, key: T -> real) {
    forall i, j :: 0 <= i < j < |s| ==> key(s[i]) >= key(s[j])
  }

  function InsertDesc<T(==)>(x: T, s: seq<T>, key: T -> real): (r: seq<T>)
    requires Descending(s, key)
    ensures Descending(r, key)
    ensures multiset(r) == multiset(s) + multiset{x}
  {
    if s == [] then [x]
    else if key(x) >= key(s[0]) then
      InsertFront(x, s, key);
      [x] + s
    else
      var tail := InsertDesc(x, s[1..], key);
      InsertBehindHead(x, s, key, tail);
      [s[0]] + tail
  }

  /** A value no smaller than the first goes in front. */
  lemma InsertFront<T>(x: T, s: seq<T>, key: T -> real)
    requires Descending(s, key) && s != [] && key(x) >= key(s[0])
    ensures Descending([x] + s, key)
  {
    var r := [x] + s;
    forall i, j | 0 <= i < j < |r| ensures key(r[i]) >= key(r[j]) {
      assert r[j] == s[j - 1];
      if i > 0 {
        assert r[i] == s[i - 1];
      }
    }
  }

  /** Inserting a value smaller than the first into the rest keeps the first in front. */
  lemma InsertBehindHead<T>(x: T, s: seq<T>, key: T -> real, tail: seq<T>)
    requires Descending(s, key) && s != [] && key(x) < key(s[0])
    requires Descending(tail, key) && multiset(tail) == multiset(s[1..]) + multiset{x}
    ensures Descending([s[0]] + tail, key)
    ensures multiset([s[0]] + tail) == multiset(s) + multiset{x}
  {
    assert s == [s[0]] + s[1..];
    forall j | 0 <= j < |tail| ensures key(s[0]) >= key(tail[j]) {
      assert tail[j] in multiset(tail);
      if tail[j] != x {
        assert tail[j] in multiset(s[1..]);
        var i :| 0 <= i < |s[1..]| && s[1..][i] == tail[j];
        assert s[1..][i] == s[i + 1];
      }
    }
    var r := [s[0]] + tail;
    forall i, j | 0 <= i < j < |r| ensures key(r[i]) >= key(r[j]) {
      assert r[j] == tail[j - 1];
      if i > 0 {
        assert r[i] == tail[i - 1];
      }
    }
  }

  /** `sort_values(key, ascending=False)`: a rearrangement of `s` with the largest values
      first. */
  function SortDesc<T(==)>(s: seq<T>, key: T -> real): (r: seq<T>)
    ensures Descending(r, key)
    ensures multiset(r) == multiset(s)
  {
    if s == [] then []
    else
      assert s == [s[0]] + s[1..];
      InsertDesc(s[0], SortDesc(s[1..], key), key)
  }

  /** `sort_values(ascending=False).head(m)` keeps the largest: nothing left out is larger
      than anything kept. */
  lemma HeadOutranks<T>(s: seq<T>, key: T -> real, m: nat)
    requires Descending(s, key) && m <= |s|
    ensures Descending(s[..m], key)
    ensures multiset(s[..m]) <= multiset(s)
    ensures forall x, y :: x in s[..m] && y in multiset(s) - multiset(s[..m]) ==> key(x) >= key(y)
  {
    HeadRest(s, m);
    HeadBeatsRest(s, key, m);
  }

  /** What the head leaves out is the rest. */
  lemma HeadRest<T>(s: seq<T>, m: nat)
    requires m <= |s|
    ensures multiset(s[..m]) <= multiset(s)
    ensures multiset(s) - multiset(s[..m]) == multiset(s[m..])
  {
    assert s == s[..m] + s[m..];
  }

  /** In a descending sequence, the head outranks the rest. */
  lemma HeadBeatsRest<T>(s: seq<T>, key: T -> real, m: nat)
    requires Descending(s, key) && m <= |s|
    ensures forall x, y :: x in s[..m] && y in s[m..] ==> key(x) >= key(y)
  {
    forall x, y | x in s[..m] && y in s[m..] ensures key(x) >= key(y) {
      var i :| 0 <= i < m && s[..m][i] == x;
      var j :| 0 <= j < |s| - m && s[m..][j] == y;
      assert s[i] == x && s[m + j] == y;
    }
  }
}
