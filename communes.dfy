/** The top-20 communes of a region and year on the dashboard page
    (02_streamlit/pages/2_Tableau_de_bord.py:370-397): counts summed and populations
    maximised per commune, communes without a positive population dropped, a rate per
    thousand inhabitants computed, and the 20 largest by count or by rate kept. */
module Communes {
  import opened Wrappers
  import opened Tally

  /** A source row: the commune column, `nombre`, `insee_pop`. */
  datatype CommuneRow = CommuneRow(name: Option<string>, nb: Option<real>, pop: Option<real>)

  /** A row of `dcom_g`: `nb_commune`, `pop_commune` and `taux_commune_pour_mille`, the last
      two absent without an `insee_pop` column. */
  datatype CommuneStat = CommuneStat(name: string, nb: real, pop: Option<real>, rate: Option<real>)

  /** The (commune, count) pairs that `groupby(commune)` sums. */
  function Counts(rows: seq<CommuneRow>): seq<(string, real)> {
    Present(seq(|rows|, i requires 0 <= i < |rows| => (rows[i].name, rows[i].nb)))
  }

  /** `agg(nb_commune=("nombre", "sum"))`. */
  function NbGroups(rows: seq<CommuneRow>): (gs: seq<(string, real)>)
    ensures KeysDistinct(gs)
    ensures forall c :: Find(gs, c) == SumOf(Counts(rows), c)
  {
    var gs := GroupSum(Counts(rows));
    GroupSumDistinct(Counts(rows));
    forall c ensures Find(gs, c) == SumOf(Counts(rows), c) {
      GroupSumFind(Counts(rows), c);
    }
    gs
  }

  /** `agg(pop_commune=("insee_pop", "max"))` for commune `c`: the largest population given,
      or `None` (NaN) when every row of `c` lacks one. */
  function MaxPop(rows: seq<CommuneRow>, c: string): Option<real> {
    if rows == [] then None
    else
      var x := rows[|rows| - 1];
      var prev := MaxPop(rows[..|rows| - 1], c);
      if x.name != Some(c) || x.pop.None? then prev
      else if prev.Some? && prev.value >= x.pop.value then prev
      else x.pop
  }

  /** `MaxPop` is `None` exactly when no row of `c` has a population, and otherwise the
      population of one of them that none exceeds. */
  lemma {:induction false} MaxPopIsMax(rows: seq<CommuneRow>, c: string)
    ensures MaxPop(rows, c).None? <==>
      forall i :: 0 <= i < |rows| && rows[i].name == Some(c) ==> rows[i].pop.None?
    ensures MaxPop(rows, c).Some? ==>
      exists i :: 0 <= i < |rows| && rows[i].name == Some(c) && rows[i].pop == MaxPop(rows, c)
    ensures MaxPop(rows, c).Some? ==>
      forall i :: 0 <= i < |rows| && rows[i].name == Some(c) && rows[i].pop.Some? ==>
        rows[i].pop.value <= MaxPop(rows, c).value
    decreases |rows|
  {
    if rows != [] {
      var init := rows[..|rows| - 1];
      MaxPopIsMax(init, c);
      assert forall i :: 0 <= i < |init| ==> init[i] == rows[i];
    }
  }

  /** Commune `c` survives `dcom_g[dcom_g["pop_commune"] > 0]` (no filter without
      populations; a NaN maximum fails the comparison). */
  predicate Populated(rows: seq<CommuneRow>, hasPop: bool, c: string) {
    !hasPop || (MaxPop(rows, c).Some? && MaxPop(rows, c).value > 0.0)
  }

  /** What a row of `dcom_g` holds: the commune's summed count, and with populations its
      maximum population, positive, and the count per thousand inhabitants. */
  predicate Sound(rows: seq<CommuneRow>, hasPop: bool, s: CommuneStat) {
    && SumOf(Counts(rows), s.name) == Some(s.nb)
    && (hasPop ==> && s.pop == MaxPop(rows, s.name) && s.pop.Some? && s.pop.value > 0.0
                   && s.rate.Some? && s.rate.value * s.pop.value == 1000.0 * s.nb)
    && (!hasPop ==> s.pop.None? && s.rate.None?)
  }

  /** The row of a kept group. */
  function StatOf(rows: seq<CommuneRow>, hasPop: bool, g: (string, real)): CommuneStat
    requires Populated(rows, hasPop, g.0)
  {
    if hasPop then
      var p := MaxPop(rows, g.0).value;
      CommuneStat(g.0, g.1, Some(p), Some(1000.0 * (g.1 / p)))
    else CommuneStat(g.0, g.1, None, None)
  }

  /** The rows of `dcom_g` for the groups `gs`, in their order. */
  function Stats(rows: seq<CommuneRow>, hasPop: bool, gs: seq<(string, real)>): (r: seq<CommuneStat>)
    ensures |r| <= |gs|
  {
    if gs == [] then []
    else
      var g := gs[|gs| - 1];
      var prev := Stats(rows, hasPop, gs[..|gs| - 1]);
      if Populated(rows, hasPop, g.0) then prev + [StatOf(rows, hasPop, g)] else prev
  }

  /** Every row is the row of a kept group. */
  lemma {:induction false} StatsFrom(rows: seq<CommuneRow>, hasPop: bool, gs: seq<(string, real)>)
    ensures forall s :: s in Stats(rows, hasPop, gs) ==>
      && (s.name, s.nb) in gs && Populated(rows, hasPop, s.name) && s == StatOf(rows, hasPop, (s.name, s.nb))
    decreases |gs|
  {
    if gs != [] {
      var init := gs[..|gs| - 1];
      StatsFrom(rows, hasPop, init);
      assert forall g :: g in init ==> g in gs;
    }
  }

  /** Every kept group has its row. */
  lemma {:induction false} StatsComplete(rows: seq<CommuneRow>, hasPop: bool, gs: seq<(string, real)>)
    ensures forall g :: g in gs && Populated(rows, hasPop, g.0) ==> StatOf(rows, hasPop, g) in Stats(rows, hasPop, gs)
    decreases |gs|
  {
    if gs != [] {
      var init := gs[..|gs| - 1];
      StatsComplete(rows, hasPop, init);
      assert gs == init + [gs[|gs| - 1]];
    }
  }

  /** Distinct groups give rows of distinct communes. */
  lemma {:induction false} StatsDistinct(rows: seq<CommuneRow>, hasPop: bool, gs: seq<(string, real)>)
    requires KeysDistinct(gs)
    ensures forall i, j :: 0 <= i < j < |Stats(rows, hasPop, gs)| ==>
      Stats(rows, hasPop, gs)[i].name != Stats(rows, hasPop, gs)[j].name
    decreases |gs|
  {
    if gs != [] {
      var init := gs[..|gs| - 1];
      var g := gs[|gs| - 1];
      var prev := Stats(rows, hasPop, init);
      StatsDistinct(rows, hasPop, init);
      StatsFrom(rows, hasPop, init);
      forall i | 0 <= i < |prev| ensures prev[i].name != g.0 {
        assert prev[i] in prev;
        var j :| 0 <= j < |init| && init[j] == (prev[i].name, prev[i].nb);
        assert init[j] == gs[j];
      }
    }
  }

  /** Lines 370-385: `dcom_g` after the filter and the rate column. */
  function Table(rows: seq<CommuneRow>, hasPop: bool): seq<CommuneStat> {
    Stats(rows, hasPop, NbGroups(rows))
  }

  /** Every row holds its commune's summed count and, with populations, its positive
      maximum population and the rate per thousand. */
  lemma TableSound(rows: seq<CommuneRow>, hasPop: bool)
    ensures forall i :: 0 <= i < |Table(rows, hasPop)| ==> Sound(rows, hasPop, Table(rows, hasPop)[i])
  {
    var gs := NbGroups(rows);
    var stats := Table(rows, hasPop);
    StatsFrom(rows, hasPop, gs);
    forall i | 0 <= i < |stats| ensures Sound(rows, hasPop, stats[i]) {
      assert stats[i] in stats;
      var j :| 0 <= j < |gs| && gs[j] == (stats[i].name, stats[i].nb);
      FindDistinct(gs, j);
      StatOfSound(rows, hasPop, gs[j]);
    }
  }

  /** The row of a kept group whose count is the commune's sum is sound. */
  lemma StatOfSound(rows: seq<CommuneRow>, hasPop: bool, g: (string, real))
    requires Populated(rows, hasPop, g.0) && SumOf(Counts(rows), g.0) == Some(g.1)
    ensures Sound(rows, hasPop, StatOf(rows, hasPop, g))
  {
    if hasPop {
      RateTimesPop(g.1, MaxPop(rows, g.0).value);
    }
  }

  /** The rate per thousand times the population gives back a thousand times the count. */
  lemma RateTimesPop(nb: real, p: real)
    requires p > 0.0
    ensures 1000.0 * (nb / p) * p == 1000.0 * nb
  {
    calc {
      1000.0 * (nb / p) * p;
      1000.0 * ((nb / p) * p);
      1000.0 * nb;
    }
  }

  /** A commune has a row exactly when it has rows in the input and, with populations, a
      positive maximum population. */
  lemma TableExactly(rows: seq<CommuneRow>, hasPop: bool, c: string)
    ensures (exists i :: 0 <= i < |Table(rows, hasPop)| && Table(rows, hasPop)[i].name == c)
            <==> SumOf(Counts(rows), c).Some? && Populated(rows, hasPop, c)
  {
    var gs := NbGroups(rows);
    var stats := Table(rows, hasPop);
    StatsFrom(rows, hasPop, gs);
    StatsComplete(rows, hasPop, gs);
    if SumOf(Counts(rows), c).Some? && Populated(rows, hasPop, c) {
      assert Find(gs, c).Some?;
      FindNone(gs, c);
      var j :| 0 <= j < |gs| && gs[j].0 == c;
      assert gs[j] in gs;
      var i :| 0 <= i < |stats| && stats[i] == StatOf(rows, hasPop, gs[j]);
    }
    if exists i :: 0 <= i < |stats| && stats[i].name == c {
      var i :| 0 <= i < |stats| && stats[i].name == c;
      assert stats[i] in stats;
      var j :| 0 <= j < |gs| && gs[j] == (stats[i].name, stats[i].nb);
      FindDistinct(gs, j);
    }
  }

  /** One row per commune. */
  lemma TableDistinct(rows: seq<CommuneRow>, hasPop: bool)
    ensures forall i, j :: 0 <= i < j < |Table(rows, hasPop)| ==> Table(rows, hasPop)[i].name != Table(rows, hasPop)[j].name
  {
    StatsDistinct(rows, hasPop, NbGroups(rows));
  }

  /** Lines 370-385 step by step: the groups are scanned, those without a positive maximum
      population dropped, and the rate written for the others. */
  method CommuneTable(rows: seq<CommuneRow>, hasPop: bool) returns (stats: seq<CommuneStat>)
    ensures stats == Table(rows, hasPop)
    ensures forall i :: 0 <= i < |stats| ==> Sound(rows, hasPop, stats[i])
  {
    var gs := NbGroups(rows);
    stats := [];
    for i := 0 to |gs|
      invariant stats == Stats(rows, hasPop, gs[..i])
    {
      assert gs[..i + 1][..i] == gs[..i];
      if Populated(rows, hasPop, gs[i].0) {
        var stat: CommuneStat;
        if hasPop {
          var p := MaxPop(rows, gs[i].0).value;
          stat := CommuneStat(gs[i].0, gs[i].1, Some(p), Some(1000.0 * (gs[i].1 / p)));
        } else {
          stat := CommuneStat(gs[i].0, gs[i].1, None, None);
        }
        stats := stats + [stat];
      }
    }
    assert gs[..|gs|] == gs;
    TableSound(rows, hasPop);
  }

  /** The ranking measure: the rate when ranking by rate with populations (lines 392-394),
      the count otherwise (lines 382-390). */
  function Measure(byRate: bool): CommuneStat -> real {
    (s: CommuneStat) => if byRate && s.rate.Some? then s.rate.value else s.nb
  }

  /** `sort_values(measure, ascending=False).head(20)`: at most 20 rows of the table,
      largest first, none of the rows left out larger than a row kept, and all of them when
      there are fewer than 20. */
  function TopCommunes(stats: seq<CommuneStat>, byRate: bool): (top: seq<CommuneStat>)
    ensures |top| == if |stats| < 20 then |stats| else 20
    ensures multiset(top) <= multiset(stats)
    ensures Descending(top, Measure(byRate))
    ensures forall x, y :: x in top && y in multiset(stats) - multiset(top) ==>
      Measure(byRate)(x) >= Measure(byRate)(y)
  {
    var s := SortDesc(stats, Measure(byRate));
    var m := if |s| < 20 then |s| else 20;
    HeadOutranks(s, Measure(byRate), m);
    s[..m]
  }

  /** Lines 370-397: the communes shown, ranked by count when asked or when there is no
      population column, by rate otherwise. */
  method CommuneRanking(rows: seq<CommuneRow>, hasPop: bool, byCount: bool) returns (top: seq<CommuneStat>)
    ensures |top| == if |Table(rows, hasPop)| < 20 then |Table(rows, hasPop)| else 20
    ensures multiset(top) <= multiset(Table(rows, hasPop))
    ensures forall i :: 0 <= i < |top| ==> top[i] in Table(rows, hasPop) && Sound(rows, hasPop, top[i])
    ensures Descending(top, Measure(hasPop && !byCount))
    ensures forall x, y :: x in top && y in multiset(Table(rows, hasPop)) - multiset(top) ==>
      Measure(hasPop && !byCount)(x) >= Measure(hasPop && !byCount)(y)
  {
    var stats := CommuneTable(rows, hasPop);
    top := TopCommunes(stats, hasPop && !byCount);
    forall i | 0 <= i < |top| ensures top[i] in stats && Sound(rows, hasPop, top[i]) {
      assert top[i] in multiset(stats);
      var j :| 0 <= j < |stats| && stats[j] == top[i];
    }
  }
}
