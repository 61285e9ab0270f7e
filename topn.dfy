/** The category breakdown of the dashboard page and its top-N fold
    (02_streamlit/pages/2_Tableau_de_bord.py:254-268): the offences of the selected year
    and region are summed per category, sorted by decreasing count, and when there are more
    than N categories the tail is folded into one "Autres" row. */
module TopN {
  import opened Wrappers
  import opened Tally

  /** `d.groupby(group_col).agg(nb=("nombre", "sum")).sort_values("nb", ascending=False)`:
      one row per category, largest first, with the grand total kept. */
  function Repartition(rows: seq<(Option<string>, Option<real>)>): (rep: seq<(string, real)>)
    ensures Descending(rep, (x: (string, real)) => x.1)
    ensures multiset(rep) == multiset(GroupSum(Present(rows)))
    ensures Total(rep) == Total(Present(rows))
  {
    var g := GroupSum(Present(rows));
    GroupSumTotal(Present(rows));
    var rep := SortDesc(g, (x: (string, real)) => x.1);
    TotalOfPermutation(rep, g);
    rep
  }

  /** Rearranging rows keeps their total. */
  lemma {:induction false} TotalOfPermutation<K>(a: seq<(K, real)>, b: seq<(K, real)>)
    requires multiset(a) == multiset(b)
    ensures Total(a) == Total(b)
    decreases |a|
  {
    if a == [] {
      assert |multiset(b)| == 0;
    } else {
      var i := Match(a, b);
      TotalOfPermutation(a[1..], b[..i] + b[i + 1..]);
      RemoveAt(b, i);
    }
  }

  /** The first row of `a` sits somewhere in its rearrangement `b`, and the rest of `a`
      rearranges what is left of `b`. */
  lemma Match<T>(a: seq<T>, b: seq<T>) returns (i: nat)
    requires a != [] && multiset(a) == multiset(b)
    ensures i < |b| && b[i] == a[0]
    ensures multiset(a[1..]) == multiset(b[..i] + b[i + 1..])
  {
    assert a[0] in multiset(b);
    i :| 0 <= i < |b| && b[i] == a[0];
    assert a == [a[0]] + a[1..];
    MultisetRemoveAt(b, i);
  }

  /** Taking out the row at `i` removes its value from the total. */
  lemma RemoveAt<K>(b: seq<(K, real)>, i: nat)
    requires i < |b|
    ensures Total(b) == b[i].1 + Total(b[..i] + b[i + 1..])
  {
    assert b == b[..i] + b[i..];
    TotalAppend(b[..i], b[i..]);
    assert b[i..][1..] == b[i + 1..];
    TotalAppend(b[..i], b[i + 1..]);
  }

  lemma MultisetRemoveAt<T>(b: seq<T>, i: nat)
    requires i < |b|
    ensures multiset(b[..i] + b[i + 1..]) == multiset(b) - multiset{b[i]}
  {
    assert b == b[..i] + [b[i]] + b[i + 1..];
  }

  /** `top = rep.head(n)`, `top.loc[...] = ["Autres", rep.iloc[n:]["nb"].sum()]` read as an
      append; with at most N categories the table is shown as is. Every category shown
      keeps its count, and the shown counts add up to the same total. */
  method TopNFold(rep: seq<(string, real)>, topn: nat) returns (plot: seq<(string, real)>)
    ensures |rep| > topn ==> plot == rep[..topn] + [(Others, Total(rep[topn..]))]
    ensures |rep| <= topn ==> plot == rep
    ensures Total(plot) == Total(rep)
  {
    if |rep| <= topn {
      return rep;
    }
    var top := rep[..topn];
    var autres := 0.0;
    for i := topn to |rep|
      invariant autres == Total(rep[topn..i])
    {
      TotalAppend(rep[topn..i], [rep[i]]);
      assert rep[topn..i + 1] == rep[topn..i] + [rep[i]];
      autres := autres + rep[i].1;
    }
    assert rep[topn..|rep|] == rep[topn..];
    plot := top + [(Others, autres)];
    TotalAppend(top, [(Others, autres)]);
    assert rep == top + rep[topn..];
    TotalAppend(top, rep[topn..]);
  }

  // ---------------------------------------------------------------------------
  // The fold as pandas performs it
  // ---------------------------------------------------------------------------

  /** A row of a pandas table with its index label. After `groupby(as_index=False)` the
      labels are 0, 1, ... in category order; `sort_values` moves rows with their labels. */
  datatype Labelled = Labelled(index: nat, cat: string, nb: real)

  function Unlabelled(s: seq<Labelled>): (r: seq<(string, real)>)
    ensures |r| == |s|
    ensures forall i :: 0 <= i < |s| ==> r[i] == (s[i].cat, s[i].nb)
  {
    if s == [] then [] else [(s[0].cat, s[0].nb)] + Unlabelled(s[1..])
  }

  /** `t.loc[label] = [cat, nb]`: overwrites the row carrying `label` when there is one,
      and appends a new row with that label otherwise. */
  function LocSet(t: seq<Labelled>, index: nat, cat: string, nb: real): (r: seq<Labelled>)
    ensures (forall i :: 0 <= i < |t| ==> t[i].index != index) ==> r == t + [Labelled(index, cat, nb)]
  {
    if t == [] then [Labelled(index, cat, nb)]
    else if t[0].index == index then [Labelled(index, cat, nb)] + t[1..]
    else [t[0]] + LocSet(t[1..], index, cat, nb)
  }

  /** When row `i` is the first to carry the label, `.loc[label] =` overwrites that row in
      place, and only it. */
  lemma {:induction false} LocSetOverwrites(t: seq<Labelled>, index: nat, cat: string, nb: real, i: nat)
    requires i < |t| && t[i].index == index
    requires forall j :: 0 <= j < i ==> t[j].index != index
    ensures LocSet(t, index, cat, nb) == t[..i] + [Labelled(index, cat, nb)] + t[i + 1..]
    decreases i
  {
    if i > 0 {
      assert forall j :: 0 <= j < i - 1 ==> t[1..][j] == t[j + 1];
      LocSetOverwrites(t[1..], index, cat, nb, i - 1);
      assert t[1..][..i - 1] == t[1..i] && t[1..][i..] == t[i + 1..];
      assert [t[0]] + t[1..i] == t[..i];
    }
  }

  /** Lines 262-268 as written: the new row is written at label `len(top)`. */
  function TopNFoldAsWritten(rep: seq<Labelled>, topn: nat): seq<Labelled> {
    if |rep| > topn then
      var top := rep[..topn];
      LocSet(top, |top|, Others, Total(Unlabelled(rep[topn..])))
    else rep
  }

  /** When no kept row carries the label N, the write appends and the fold is the intended
      one. */
  lemma AsWrittenAppendsWhenLabelFree(rep: seq<Labelled>, topn: nat)
    requires |rep| > topn
    requires forall i :: 0 <= i < topn ==> rep[i].index != topn
    ensures Unlabelled(TopNFoldAsWritten(rep, topn))
            == Unlabelled(rep)[..topn] + [(Others, Total(Unlabelled(rep)[topn..]))]
  {
    var x := Labelled(topn, Others, Total(Unlabelled(rep[topn..])));
    LabelFreeAppends(rep, topn);
    UnlabelledAppend(rep[..topn], [x]);
    assert Unlabelled([x]) == [(Others, x.nb)];
    UnlabelledSplit(rep, topn);
  }

  /** When no kept row carries the label N, the write appends the "Autres" row. */
  lemma LabelFreeAppends(rep: seq<Labelled>, topn: nat)
    requires |rep| > topn
    requires forall i :: 0 <= i < topn ==> rep[i].index != topn
    ensures TopNFoldAsWritten(rep, topn)
            == rep[..topn] + [Labelled(topn, Others, Total(Unlabelled(rep[topn..])))]
  {
    var top := rep[..topn];
    forall i | 0 <= i < |top| ensures top[i].index != |top| {
      assert top[i] == rep[i];
    }
  }

  /** The plain rows of a prefix and of the suffix after it. */
  lemma UnlabelledSplit(rep: seq<Labelled>, n: nat)
    requires n <= |rep|
    ensures Unlabelled(rep)[..n] == Unlabelled(rep[..n])
    ensures Unlabelled(rep)[n..] == Unlabelled(rep[n..])
  {
    UnlabelledAppend(rep[..n], rep[n..]);
    assert rep == rep[..n] + rep[n..];
  }

  lemma {:induction false} UnlabelledAppend(a: seq<Labelled>, b: seq<Labelled>)
    ensures Unlabelled(a + b) == Unlabelled(a) + Unlabelled(b)
  {
    var l := Unlabelled(a + b);
    var r := Unlabelled(a) + Unlabelled(b);
    assert |l| == |r|;
    forall i | 0 <= i < |l| ensures l[i] == r[i] {
      if i < |a| {
        assert (a + b)[i] == a[i];
      } else {
        assert (a + b)[i] == b[i - |a|];
      }
    }
  }

  /** Six categories sorted by count, whose largest one has label 5 (it is sixth in name
      order). */
  const Example: seq<Labelled> := [Labelled(5, "f", 100.0), Labelled(0, "a", 6.0), Labelled(1, "b", 5.0),
                                   Labelled(2, "c", 4.0), Labelled(3, "d", 3.0), Labelled(4, "e", 2.0)]

  /** Folded to the top 5, the example loses a category: the "Autres" row overwrites the
      largest category instead of being appended, and the total shown drops from 120 to 20. */
  lemma AsWrittenOverwrites()
    ensures |TopNFoldAsWritten(Example, 5)| == 5
    ensures TopNFoldAsWritten(Example, 5)[0] == Labelled(5, Others, 2.0)
    ensures Total(Unlabelled(Example)) == 120.0
    ensures Total(Unlabelled(TopNFoldAsWritten(Example, 5))) == 20.0
  {
    ExampleFold();
    ExampleFoldTotal();
    ExampleTotal();
  }

  lemma ExampleFold()
    ensures TopNFoldAsWritten(Example, 5)
            == [Labelled(5, Others, 2.0), Labelled(0, "a", 6.0), Labelled(1, "b", 5.0),
                Labelled(2, "c", 4.0), Labelled(3, "d", 3.0)]
  {
    var rep := Example;
    assert rep[5..] == [Labelled(4, "e", 2.0)];
    assert Total(Unlabelled(rep[5..])) == 2.0;
    var top := rep[..5];
    assert LocSet(top, 5, Others, 2.0) == [Labelled(5, Others, 2.0)] + top[1..];
  }

  lemma ExampleFoldTotal()
    ensures Total(Unlabelled([Labelled(5, Others, 2.0), Labelled(0, "a", 6.0), Labelled(1, "b", 5.0),
                              Labelled(2, "c", 4.0), Labelled(3, "d", 3.0)])) == 20.0
  {
    var u := Unlabelled([Labelled(5, Others, 2.0), Labelled(0, "a", 6.0), Labelled(1, "b", 5.0),
                         Labelled(2, "c", 4.0), Labelled(3, "d", 3.0)]);
    assert u == [(Others, 2.0), ("a", 6.0), ("b", 5.0), ("c", 4.0), ("d", 3.0)];
    assert Total(u[4..]) == 3.0;
    assert Total(u[3..]) == 7.0;
    assert Total(u[2..]) == 12.0;
    assert Total(u[1..]) == 18.0;
  }

  lemma ExampleTotal()
    ensures Total(Unlabelled(Example)) == 120.0
  {
    var v := Unlabelled(Example);
    assert v == [("f", 100.0), ("a", 6.0), ("b", 5.0), ("c", 4.0), ("d", 3.0), ("e", 2.0)];
    assert Total(v[5..]) == 2.0;
    assert Total(v[4..]) == 5.0;
    assert Total(v[3..]) == 9.0;
    assert Total(v[2..]) == 14.0;
    assert Total(v[1..]) == 20.0;
  }
}
