/** The detailed-level composition over time of the dashboard page
    (02_streamlit/pages/2_Tableau_de_bord.py:309-324): counts summed per (year, category),
    then every category outside the k largest overall relabelled "Autres" and summed again. */
module Composition {
  import opened Wrappers
  import opened Tally

  /** A (year, category) group key. */
  type Key = (int, string)

  /** A source row: `annee`, the category column, `nombre`. */
  datatype StackRow = StackRow(year: Option<int>, cat: Option<string>, nb: Option<real>)

  /** The grouping key of a row; `groupby` drops a row missing either part. */
  function KeyOf(r: StackRow): (k: Option<Key>)
    ensures k.Some? <==> r.year.Some? && r.cat.Some?
  {
    if r.year.Some? && r.cat.Some? then Some((r.year.value, r.cat.value)) else None
  }

  /** The rows that `groupby(["annee", cat])` keeps, as (key, count) pairs. */
  function Keyed(rows: seq<StackRow>): seq<(Key, real)> {
    Present(seq(|rows|, i requires 0 <= i < |rows| => (KeyOf(rows[i]), rows[i].nb)))
  }

  /** The keys of year `y`. */
  function InYear(y: int): Key -> bool {
    (k: Key) => k.0 == y
  }

  /** The total count of year `y`. */
  function YearTotal(gs: seq<(Key, real)>, y: int): real {
    TotalWhere(gs, InYear(y))
  }

  /** The categories present in year `y`. */
  function CatsOfYear(gs: seq<(Key, real)>, y: int): set<string> {
    set i | 0 <= i < |gs| && gs[i].0.0 == y :: gs[i].0.1
  }

  /** `comp.groupby(cat)["nb"].sum()`: the overall total of each category. */
  function CatTotals(comp: seq<(Key, real)>): (g: seq<(string, real)>)
    ensures KeysDistinct(g)
  {
    var cats := seq(|comp|, i requires 0 <= i < |comp| => (comp[i].0.1, comp[i].1));
    GroupSumDistinct(cats);
    GroupSum(cats)
  }

  function Nb(x: (string, real)): real {
    x.1
  }

  function Keys(s: seq<(string, real)>): (r: seq<string>)
    ensures |r| == |s|
    ensures forall i :: 0 <= i < |s| ==> r[i] == s[i].0
  {
    seq(|s|, i requires 0 <= i < |s| => s[i].0)
  }

  /** `.sort_values(ascending=False).head(k).index.tolist()`: at most k categories, none of
      them smaller in total than a category left out, and all of them when there are at
      most k. */
  function TopClasses(comp: seq<(Key, real)>, k: nat): (r: seq<string>)
    ensures |r| <= k
    ensures forall c :: c in r ==> Find(CatTotals(comp), c).Some?
    ensures forall c, d :: c in r && d !in r && Find(CatTotals(comp), d).Some? ==>
      Find(CatTotals(comp), c).value >= Find(CatTotals(comp), d).value
    ensures forall d :: d !in r && Find(CatTotals(comp), d).Some? ==> |r| == k
    ensures forall i, j :: 0 <= i < j < |r| ==> r[i] != r[j]
  {
    var g := CatTotals(comp);
    var s := SortDesc(g, Nb);
    var m := if |s| < k then |s| else k;
    KeysDistinctPermutation(g, s);
    HeadFound(g, s, m);
    HeadRanks(g, s, m);
    Keys(s[..m])
  }

  /** The head of a rearrangement of distinct groups names groups that exist. */
  lemma HeadFound(g: seq<(string, real)>, s: seq<(string, real)>, m: nat)
    requires KeysDistinct(g) && multiset(s) == multiset(g) && m <= |s|
    ensures forall c :: c in Keys(s[..m]) ==> Find(g, c).Some?
  {
    var r := Keys(s[..m]);
    forall c | c in r ensures Find(g, c).Some? {
      var i :| 0 <= i < m && r[i] == c;
      assert s[i] in multiset(g);
      var l :| 0 <= l < |g| && g[l] == s[i];
      FindDistinct(g, l);
    }
  }

  /** The head of a descending rearrangement of distinct groups outranks every group left
      out, and is cut short only when nothing is left out. */
  lemma HeadRanks(g: seq<(string, real)>, s: seq<(string, real)>, m: nat)
    requires KeysDistinct(g) && multiset(s) == multiset(g) && m <= |s|
    requires Descending(s, Nb)
    ensures forall c, d :: c in Keys(s[..m]) && d !in Keys(s[..m]) && Find(g, d).Some? ==>
      Find(g, c).Some? && Find(g, c).value >= Find(g, d).value
    ensures forall d :: d !in Keys(s[..m]) && Find(g, d).Some? ==> m < |s|
  {
    var r := Keys(s[..m]);
    assert forall i :: 0 <= i < m ==> r[i] == s[i].0;
    forall d | d !in r && Find(g, d).Some? ensures m < |s| {
      var j := Placed(g, s, d);
    }
    forall c, d | c in r && d !in r && Find(g, d).Some?
      ensures Find(g, c).Some? && Find(g, c).value >= Find(g, d).value
    {
      var i :| 0 <= i < m && r[i] == c;
      var j := Placed(g, s, d);
      assert s[i] in multiset(g);
      var l :| 0 <= l < |g| && g[l] == s[i];
      FindDistinct(g, l);
    }
  }

  /** Where the group of `d` sits in the rearrangement. */
  lemma Placed(g: seq<(string, real)>, s: seq<(string, real)>, d: string) returns (j: nat)
    requires KeysDistinct(g) && multiset(s) == multiset(g) && Find(g, d).Some?
    ensures j < |s| && s[j].0 == d && s[j].1 == Find(g, d).value
  {
    FindNone(g, d);
    var i :| 0 <= i < |g| && g[i].0 == d;
    FindDistinct(g, i);
    assert g[i] in multiset(s);
    j :| 0 <= j < |s| && s[j] == g[i];
  }

  /** `where(isin(top), "Autres")` applied to one group. */
  function RelabelOne(x: (Key, real), top: seq<string>): (Key, real) {
    ((x.0.0, if x.0.1 in top then x.0.1 else Others), x.1)
  }

  /** Every group of `comp` relabelled against `top`. */
  function Relabelled(comp: seq<(Key, real)>, top: seq<string>): (r: seq<(Key, real)>)
    ensures |r| == |comp|
  {
    seq(|comp|, i requires 0 <= i < |comp| => RelabelOne(comp[i], top))
  }

  /** The keys of year `y` that end up under "Autres": categories outside `top`, and a
      category that is already called "Autres". */
  function Folded(y: int, top: seq<string>): Key -> bool {
    (k: Key) => k.0 == y && (k.1 !in top || k.1 == Others)
  }

  lemma RelabelledPrefix(comp: seq<(Key, real)>, top: seq<string>)
    requires comp != []
    ensures Relabelled(comp, top)[..|comp| - 1] == Relabelled(comp[..|comp| - 1], top)
  {
  }

  /** A category of `top` other than "Autres" keeps its sum in every year. */
  lemma {:induction false} RelabelKeeps(comp: seq<(Key, real)>, top: seq<string>, y: int, c: string)
    requires c in top && c != Others
    ensures SumOf(Relabelled(comp, top), (y, c)) == SumOf(comp, (y, c))
    decreases |comp|
  {
    if comp != [] {
      var init := comp[..|comp| - 1];
      var x := comp[|comp| - 1];
      var r := Relabelled(comp, top);
      RelabelledPrefix(comp, top);
      assert r[|comp| - 1] == RelabelOne(x, top);
      assert r[|comp| - 1].0 == (y, c) <==> x.0 == (y, c);
      RelabelKeeps(init, top, y, c);
    }
  }

  /** The "Autres" group of year `y` holds the sum over the groups of that year that are
      folded into it (0 when there is none). */
  lemma {:induction false} OthersSum(comp: seq<(Key, real)>, top: seq<string>, y: int)
    ensures ValueOrZero(SumOf(Relabelled(comp, top), (y, Others))) == TotalWhere(comp, Folded(y, top))
    decreases |comp|
  {
    if comp != [] {
      var init := comp[..|comp| - 1];
      var x := comp[|comp| - 1];
      RelabelledPrefix(comp, top);
      OthersSum(init, top, y);
      assert comp == init + [x];
      TotalWhereAppend(init, [x], Folded(y, top));
    }
  }

  /** `comp[cat] = comp[cat].where(comp[cat].isin(top), "Autres")`: the category column is
      overwritten row by row; years and counts stay. */
  method Relabel(comp: seq<(Key, real)>, top: seq<string>) returns (out: seq<(Key, real)>)
    ensures |out| == |comp|
    ensures forall i :: 0 <= i < |comp| ==> out[i] == RelabelOne(comp[i], top)
  {
    out := [];
    for i := 0 to |comp|
      invariant |out| == i
      invariant forall j :: 0 <= j < i ==> out[j] == RelabelOne(comp[j], top)
    {
      out := out + [RelabelOne(comp[i], top)];
    }
  }

  /** Changing only the categories keeps every year's total. */
  lemma {:induction false} SameYearsSameTotals(a: seq<(Key, real)>, b: seq<(Key, real)>, y: int)
    requires |a| == |b|
    requires forall i :: 0 <= i < |a| ==> a[i].0.0 == b[i].0.0 && a[i].1 == b[i].1
    ensures YearTotal(a, y) == YearTotal(b, y)
    decreases |a|
  {
    if a != [] {
      assert forall i :: 0 <= i < |a| - 1 ==> a[1..][i] == a[i + 1] && b[1..][i] == b[i + 1];
      SameYearsSameTotals(a[1..], b[1..], y);
    }
  }

  /** Regrouping the relabelled groups: each key holds the sum of its relabelled groups, a
      top category other than "Autres" keeps its sums, and "Autres" collects the rest. */
  lemma RelabelledGroups(comp: seq<(Key, real)>, top: seq<string>)
    ensures forall kk :: Find(GroupSum(Relabelled(comp, top)), kk) == SumOf(Relabelled(comp, top), kk)
    ensures forall y, c :: c in top && c != Others ==> Find(GroupSum(Relabelled(comp, top)), (y, c)) == SumOf(comp, (y, c))
    ensures forall y :: ValueOrZero(Find(GroupSum(Relabelled(comp, top)), (y, Others))) == TotalWhere(comp, Folded(y, top))
  {
    var r := Relabelled(comp, top);
    forall kk ensures Find(GroupSum(r), kk) == SumOf(r, kk) {
      GroupSumFind(r, kk);
    }
    forall y, c | c in top && c != Others ensures SumOf(r, (y, c)) == SumOf(comp, (y, c)) {
      RelabelKeeps(comp, top, y, c);
    }
    forall y ensures ValueOrZero(SumOf(r, (y, Others))) == TotalWhere(comp, Folded(y, top)) {
      OthersSum(comp, top, y);
    }
  }

  /** A set drawn from a list has no more elements than the list. */
  lemma {:induction false} ElementsCard(s: seq<string>)
    ensures |set x | x in s| <= |s|
    decreases |s|
  {
    if s != [] {
      ElementsCard(s[1..]);
      assert (set x | x in s) == (set x | x in s[1..]) + {s[0]};
    }
  }

  lemma {:induction false} SubsetCard(a: set<string>, b: set<string>)
    requires a <= b
    ensures |a| <= |b|
    decreases |a|
  {
    if a != {} {
      var x :| x in a;
      SubsetCard(a - {x}, b - {x});
    }
  }

  /** Lines 315-324: relabel outside the top k, then `groupby(["annee", cat]).sum()` again.
      Every year keeps its total and shows at most k + 1 categories: its top ones and
      "Autres". */
  method DetailedComposition(comp: seq<(Key, real)>, k: nat) returns (out: seq<(Key, real)>)
    ensures KeysDistinct(out)
    ensures forall kk :: Find(out, kk) == SumOf(Relabelled(comp, TopClasses(comp, k)), kk)
    ensures forall y, c :: c in TopClasses(comp, k) && c != Others ==> Find(out, (y, c)) == SumOf(comp, (y, c))
    ensures forall y :: ValueOrZero(Find(out, (y, Others))) == TotalWhere(comp, Folded(y, TopClasses(comp, k)))
    ensures forall y :: YearTotal(out, y) == YearTotal(comp, y)
    ensures forall i :: 0 <= i < |out| ==> out[i].0.1 in TopClasses(comp, k) || out[i].0.1 == Others
    ensures forall y :: |CatsOfYear(out, y)| <= k + 1
  {
    var top := TopClasses(comp, k);
    var relabelled := Relabel(comp, top);
    assert relabelled == Relabelled(comp, top);
    out := GroupSum(relabelled);
    RelabelledGroups(comp, top);
    RegroupedTotals(comp, top);
    RegroupedCategories(comp, top);
  }

  /** Regrouping the relabelled groups gives one group per key and keeps every year's total. */
  lemma RegroupedTotals(comp: seq<(Key, real)>, top: seq<string>)
    ensures KeysDistinct(GroupSum(Relabelled(comp, top)))
    ensures forall y :: YearTotal(GroupSum(Relabelled(comp, top)), y) == YearTotal(comp, y)
  {
    var r := Relabelled(comp, top);
    GroupSumDistinct(r);
    forall y ensures YearTotal(GroupSum(r), y) == YearTotal(comp, y) {
      GroupSumTotalWhere(r, InYear(y));
      SameYearsSameTotals(r, comp, y);
    }
  }

  /** After regrouping, every category is a top one or "Autres", so a year has at most one
      more category than `top` has entries. */
  lemma RegroupedCategories(comp: seq<(Key, real)>, top: seq<string>)
    ensures forall i :: 0 <= i < |GroupSum(Relabelled(comp, top))| ==>
              GroupSum(Relabelled(comp, top))[i].0.1 in top || GroupSum(Relabelled(comp, top))[i].0.1 == Others
    ensures forall y :: |CatsOfYear(GroupSum(Relabelled(comp, top)), y)| <= |top| + 1
  {
    var r := Relabelled(comp, top);
    var out := GroupSum(r);
    GroupSumDistinct(r);
    forall i | 0 <= i < |out| ensures out[i].0.1 in top || out[i].0.1 == Others {
      FindDistinct(out, i);
      GroupSumFind(r, out[i].0);
      assert SumOf(r, out[i].0).Some?;
      var j :| 0 <= j < |r| && r[j].0 == out[i].0;
    }
    ElementsCard(top);
    forall y ensures |CatsOfYear(out, y)| <= |top| + 1 {
      assert CatsOfYear(out, y) <= (set x | x in top) + {Others};
      SubsetCard(CatsOfYear(out, y), (set x | x in top) + {Others});
    }
  }

  /** Lines 309-324: the table the area chart draws. Whatever the level, every year keeps
      the total count of its rows that have a category; at the detailed level each year
      has at most k + 1 categories. */
  method StackedComposition(rows: seq<StackRow>, detailed: bool, k: nat) returns (out: seq<(Key, real)>)
    ensures KeysDistinct(out)
    ensures forall y :: YearTotal(out, y) == YearTotal(Keyed(rows), y)
    ensures detailed ==> forall y :: |CatsOfYear(out, y)| <= k + 1
    ensures !detailed ==> forall kk :: Find(out, kk) == SumOf(Keyed(rows), kk)
    ensures detailed ==> forall y, c :: c in TopClasses(GroupSum(Keyed(rows)), k) && c != Others ==>
      Find(out, (y, c)) == SumOf(Keyed(rows), (y, c))
    ensures detailed ==> forall y ::
              ValueOrZero(Find(out, (y, Others))) == TotalWhere(Keyed(rows), Folded(y, TopClasses(GroupSum(Keyed(rows)), k)))
  {
    var comp := GroupSum(Keyed(rows));
    GroupSumDistinct(Keyed(rows));
    forall y ensures YearTotal(comp, y) == YearTotal(Keyed(rows), y) {
      GroupSumTotalWhere(Keyed(rows), InYear(y));
    }
    forall kk ensures Find(comp, kk) == SumOf(Keyed(rows), kk) {
      GroupSumFind(Keyed(rows), kk);
    }
    if detailed {
      out := DetailedComposition(comp, k);
      var top := TopClasses(comp, k);
      forall y, c | c in top && c != Others ensures Find(out, (y, c)) == SumOf(Keyed(rows), (y, c)) {
        SumOfDistinct(comp, (y, c));
      }
      forall y ensures TotalWhere(comp, Folded(y, top)) == TotalWhere(Keyed(rows), Folded(y, top)) {
        GroupSumTotalWhere(Keyed(rows), Folded(y, top));
      }
    } else {
      out := comp;
    }
  }
}
