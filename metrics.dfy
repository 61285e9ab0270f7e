/** The region-year table `build_region_metrics` (02_streamlit/utils.py:162-193): one row
    per (region, normalised key, year) with the summed count and population, the rate per
    thousand inhabitants and its change since the region's previous row. */
module Metrics {
  import opened Wrappers
  import opened Order
  import opened Loader

  /** The columns the builder needs. */
  const Required: set<string> := {Region, RegionNorm, Year, Count, Pop}

  /** A group key: `nom_region`, `nom_region_norm`, `annee`. */
  datatype Key = Key(region: string, norm: string, year: int)

  /** The key of a row; `None` when a part is missing, since `groupby` drops such rows. */
  function RowKey(row: Row): (k: Option<Key>)
    ensures k.Some? <==> row.region.Some? && row.regionNorm.Some? && row.year.Some?
  {
    if row.region.Some? && row.regionNorm.Some? && row.year.Some? then
      Some(Key(row.region.value, row.regionNorm.value, row.year.value))
    else None
  }

  /** A missing value counts as 0 in a pandas sum. */
  function Val(x: Option<real>): real {
    if x.Some? then x.value else 0.0
  }

  // ---------------------------------------------------------------------------
  // The order of the result
  // ---------------------------------------------------------------------------

  /** The final row order: `groupby` sorts by (region, key, year), then the stable
      `sort_values(["nom_region", "annee"])` reorders by region and year, so keys that tie
      on both keep their order by normalised key. */
  predicate KeyLt(a: Key, b: Key) {
    StrLt(a.region, b.region)
    || (a.region == b.region && (a.year < b.year || (a.year == b.year && StrLt(a.norm, b.norm))))
  }

  lemma KeyLtIrreflexive(a: Key)
    ensures !KeyLt(a, a)
  {
    StrLtIrreflexive(a.region);
    StrLtIrreflexive(a.norm);
  }

  lemma KeyLtTransitive(a: Key, b: Key, c: Key)
    requires KeyLt(a, b) && KeyLt(b, c)
    ensures KeyLt(a, c)
  {
    if StrLt(a.region, b.region) && StrLt(b.region, c.region) {
      StrLtTransitive(a.region, b.region, c.region);
    }
    if StrLt(a.norm, b.norm) && StrLt(b.norm, c.norm) {
      StrLtTransitive(a.norm, b.norm, c.norm);
    }
  }

  lemma KeyLtTotal(a: Key, b: Key)
    ensures a == b || KeyLt(a, b) || KeyLt(b, a)
  {
    StrLtTotal(a.region, b.region);
    StrLtTotal(a.norm, b.norm);
  }

  // ---------------------------------------------------------------------------
  // Grouping
  // ---------------------------------------------------------------------------

  /** One group: its key and the sums of `nombre` and `insee_pop` over its rows. */
  datatype Group = Group(key: Key, nb: real, pop: real)

  /** Strictly ascending keys: sorted, and one group per key. */
  predicate Ascending(gs: seq<Group>) {
    forall i, j :: 0 <= i < j < |gs| ==> KeyLt(gs[i].key, gs[j].key)
  }

  /** The sums held for key `k`, if a group has it. */
  function Find(gs: seq<Group>, k: Key): Option<(real, real)> {
    if gs == [] then None
    else if gs[0].key == k then Some((gs[0].nb, gs[0].pop))
    else Find(gs[1..], k)
  }

  /** Adds a row's count and population to the sums held for its key. */
  function Plus(o: Option<(real, real)>, c: real, p: real): (real, real) {
    if o.None? then (c, p) else (o.value.0 + c, o.value.1 + p)
  }

  /** The sums of the count and the population over the rows with key `k`, or `None`
      when no row has that key. */
  function Summary(rows: seq<Row>, k: Key): (r: Option<(real, real)>)
    ensures r.None? <==> forall i :: 0 <= i < |rows| ==> RowKey(rows[i]) != Some(k)
  {
    if rows == [] then None
    else
      var x := rows[|rows| - 1];
      var prev := Summary(rows[..|rows| - 1], k);
      if RowKey(x) == Some(k) then Some(Plus(prev, Val(x.count), Val(x.pop))) else prev
  }

  /** The total count over the rows that `groupby` keeps. */
  function TotalNb(rows: seq<Row>): real {
    if rows == [] then 0.0
    else
      var x := rows[|rows| - 1];
      TotalNb(rows[..|rows| - 1]) + (if RowKey(x).Some? then Val(x.count) else 0.0)
  }

  function GroupsNb(gs: seq<Group>): real {
    if gs == [] then 0.0 else gs[0].nb + GroupsNb(gs[1..])
  }

  /** No group below its first key holds `k`. */
  lemma {:induction false} FindBelow(gs: seq<Group>, k: Key)
    requires Ascending(gs) && gs != [] && KeyLt(k, gs[0].key)
    ensures Find(gs, k).None?
    decreases |gs|
  {
    KeyLtIrreflexive(k);
    if |gs| > 1 {
      assert KeyLt(gs[0].key, gs[1].key);
      KeyLtTransitive(k, gs[0].key, gs[1].key);
      FindBelow(gs[1..], k);
    }
  }

  /** Adds one row (key `k`, count `c`, population `p`) to the ascending groups. */
  function Accumulate(gs: seq<Group>, k: Key, c: real, p: real): (r: seq<Group>)
    requires Ascending(gs)
    ensures Ascending(r)
    ensures forall j :: 0 <= j < |r| ==> r[j].key == k || exists i :: 0 <= i < |gs| && gs[i].key == r[j].key
  {
    if gs == [] then [Group(k, c, p)]
    else if gs[0].key == k then
      var r := [Group(k, gs[0].nb + c, gs[0].pop + p)] + gs[1..];
      assert r[1..] == gs[1..];
      r
    else if KeyLt(k, gs[0].key) then
      forall j | 0 <= j < |gs| ensures KeyLt(k, gs[j].key) {
        if j > 0 { KeyLtTransitive(k, gs[0].key, gs[j].key); }
      }
      var r := [Group(k, c, p)] + gs;
      assert r[1..] == gs;
      r
    else
      KeyLtTotal(k, gs[0].key);
      var tail := Accumulate(gs[1..], k, c, p);
      forall j | 0 <= j < |tail| ensures KeyLt(gs[0].key, tail[j].key) {
        if tail[j].key != k {
          var i :| 0 <= i < |gs[1..]| && gs[1..][i].key == tail[j].key;
          assert gs[1..][i] == gs[i + 1];
        }
      }
      var r := [gs[0]] + tail;
      assert r[1..] == tail;
      forall j | 0 <= j < |r| ensures r[j].key == k || exists i :: 0 <= i < |gs| && gs[i].key == r[j].key {
        if j > 0 && r[j].key != k {
          var i :| 0 <= i < |gs[1..]| && gs[1..][i].key == tail[j - 1].key;
          assert gs[i + 1].key == r[j].key;
        }
      }
      r
  }

  /** Accumulating adds to the sums of key `k` only, and adds the row's count to the total. */
  lemma {:induction false} AccumulateSums(gs: seq<Group>, k: Key, c: real, p: real)
    requires Ascending(gs)
    ensures Find(Accumulate(gs, k, c, p), k) == Some(Plus(Find(gs, k), c, p))
    ensures forall k' :: k' != k ==> Find(Accumulate(gs, k, c, p), k') == Find(gs, k')
    ensures GroupsNb(Accumulate(gs, k, c, p)) == GroupsNb(gs) + c
    decreases |gs|
  {
    var r := Accumulate(gs, k, c, p);
    if gs == [] {
    } else if gs[0].key == k {
      assert r[1..] == gs[1..];
    } else if KeyLt(k, gs[0].key) {
      FindBelow(gs, k);
      assert r[1..] == gs;
    } else {
      AccumulateSums(gs[1..], k, c, p);
      assert r[1..] == Accumulate(gs[1..], k, c, p);
    }
  }

  /** `df.groupby(["nom_region", "nom_region_norm", "annee"]).agg(sum, sum)`: the groups in
      output order, one per key present, each with the sums over its rows; the total count
      over the kept rows is preserved. */
  function Grouped(rows: seq<Row>): (gs: seq<Group>)
    ensures Ascending(gs)
    ensures forall k :: Find(gs, k) == Summary(rows, k)
    ensures GroupsNb(gs) == TotalNb(rows)
  {
    if rows == [] then []
    else
      var x := rows[|rows| - 1];
      var prev := Grouped(rows[..|rows| - 1]);
      match RowKey(x)
      case None => prev
      case Some(k) =>
        AccumulateSums(prev, k, Val(x.count), Val(x.pop));
        Accumulate(prev, k, Val(x.count), Val(x.pop))
  }

  // ---------------------------------------------------------------------------
  // Rates and their yearly change
  // ---------------------------------------------------------------------------

  /** One output row. `pop` and `rate` are `None` where pandas has NA. */
  datatype Metric = Metric(region: string, norm: string, year: int, nb: real,
                           pop: Option<real>, rate: Option<real>, variation: real)

  /** `pop_region.replace({0: NA})`: a zero population is unknown. */
  function PopOf(p: real): (r: Option<real>)
    ensures r.None? <==> p == 0.0
    ensures r.Some? ==> r.value == p
  {
    if p == 0.0 then None else Some(p)
  }

  /** `1000 * (nb / pop)`, NA when the population is. */
  function Rate(nb: real, pop: Option<real>): (r: Option<real>)
    ensures r.Some? <==> pop.Some? && pop.value != 0.0
    ensures r.Some? ==> r.value * pop.value == 1000.0 * nb
  {
    if pop.Some? && pop.value != 0.0 then Some(1000.0 * nb / pop.value) else None
  }

  /** The rate of group `i`. */
  function GroupRate(gs: seq<Group>, i: nat): Option<real>
    requires i < |gs|
  {
    Rate(gs[i].nb, PopOf(gs[i].pop))
  }

  /** `groupby("nom_region")[rate].diff().fillna(0)`: the change from the previous row of
      the same region, 0 at a region's first row or when either rate is NA. */
  function Variation(gs: seq<Group>, i: nat): (v: real)
    requires i < |gs|
    ensures (i == 0 || gs[i - 1].key.region != gs[i].key.region) ==> v == 0.0
    ensures GroupRate(gs, i).None? ==> v == 0.0
    ensures i > 0 && GroupRate(gs, i - 1).None? ==> v == 0.0
    ensures i > 0 && gs[i - 1].key.region == gs[i].key.region
            && GroupRate(gs, i).Some? && GroupRate(gs, i - 1).Some? ==>
              v == GroupRate(gs, i).value - GroupRate(gs, i - 1).value
  {
    if i > 0 && gs[i - 1].key.region == gs[i].key.region
       && GroupRate(gs, i).Some? && GroupRate(gs, i - 1).Some?
    then GroupRate(gs, i).value - GroupRate(gs, i - 1).value
    else 0.0
  }

  /** Output row `i` for the groups `gs`. */
  function MetricAt(gs: seq<Group>, i: nat): Metric
    requires i < |gs|
  {
    var g := gs[i];
    Metric(g.key.region, g.key.norm, g.key.year, g.nb, PopOf(g.pop), GroupRate(gs, i), Variation(gs, i))
  }

  /** `build_region_metrics(df)`: the missing required columns, or the table. */
  method BuildRegionMetrics(df: Frame) returns (r: Result<seq<Metric>, set<string>>)
    ensures r.Failure? <==> !(Required <= df.columns)
    ensures r.Failure? ==> r.error == Required - df.columns && r.error != {}
    ensures r.Success? ==>
      var gs := Grouped(df.rows);
      |r.value| == |gs| && forall i :: 0 <= i < |gs| ==> r.value[i] == MetricAt(gs, i)
  {
    var missing := Required - df.columns;
    if missing != {} {
      return Failure(missing);
    }
    forall x | x in Required ensures x in df.columns {
      assert x !in missing;
    }
    var gs := GroupRows(df.rows);
    var out := EmitMetrics(gs);
    return Success(out);
  }

  /** The `groupby(...).agg(sum)` step, one row at a time. */
  method GroupRows(rows: seq<Row>) returns (gs: seq<Group>)
    ensures gs == Grouped(rows)
  {
    gs := [];
    for i := 0 to |rows|
      invariant gs == Grouped(rows[..i])
    {
      assert rows[..i + 1][..i] == rows[..i];
      var k := RowKey(rows[i]);
      if k.Some? {
        gs := Accumulate(gs, k.value, Val(rows[i].count), Val(rows[i].pop));
      }
    }
    assert rows[..|rows|] == rows;
  }

  /** The column assignments that turn the groups into output rows. */
  method EmitMetrics(gs: seq<Group>) returns (out: seq<Metric>)
    ensures |out| == |gs|
    ensures forall i :: 0 <= i < |gs| ==> out[i] == MetricAt(gs, i)
  {
    out := [];
    for i := 0 to |gs|
      invariant |out| == i
      invariant forall j :: 0 <= j < i ==> out[j] == MetricAt(gs, j)
    {
      out := out + [MetricAt(gs, i)];
    }
  }

  // ---------------------------------------------------------------------------
  // Properties of the table
  // ---------------------------------------------------------------------------

  function MetricsNb(ms: seq<Metric>): real {
    if ms == [] then 0.0 else ms[0].nb + MetricsNb(ms[1..])
  }

  /** The metrics table of `rows`, as `BuildRegionMetrics` returns it. */
  function Table(rows: seq<Row>): seq<Metric> {
    var gs := Grouped(rows);
    seq(|gs|, i requires 0 <= i < |gs| => MetricAt(gs, i))
  }

  lemma {:induction false} MetricsNbOf(gs: seq<Group>, ms: seq<Metric>)
    requires |ms| == |gs| && forall i :: 0 <= i < |gs| ==> ms[i].nb == gs[i].nb
    ensures MetricsNb(ms) == GroupsNb(gs)
    decreases |gs|
  {
    if gs != [] {
      MetricsNbOf(gs[1..], ms[1..]);
    }
  }

  /** The count is conserved: the table's `nb_region` column sums to the total count of the
      rows with a complete key. */
  lemma TotalConserved(rows: seq<Row>)
    ensures MetricsNb(Table(rows)) == TotalNb(rows)
  {
    MetricsNbOf(Grouped(rows), Table(rows));
  }

  /** One row per key: a key has a row exactly when some input row has that key, and the
      row carries the group's sums; rows are in (region, year, key) order. */
  lemma OneRowPerKey(rows: seq<Row>, k: Key)
    ensures (exists i :: 0 <= i < |Table(rows)| && Table(rows)[i].region == k.region
               && Table(rows)[i].norm == k.norm && Table(rows)[i].year == k.year)
            <==> exists j :: 0 <= j < |rows| && RowKey(rows[j]) == Some(k)
    ensures forall i, j :: 0 <= i < j < |Table(rows)| ==>
      KeyLt(Key(Table(rows)[i].region, Table(rows)[i].norm, Table(rows)[i].year),
            Key(Table(rows)[j].region, Table(rows)[j].norm, Table(rows)[j].year))
  {
    if exists j :: 0 <= j < |rows| && RowKey(rows[j]) == Some(k) {
      KeyHasRow(rows, k);
    }
    if exists i :: 0 <= i < |Table(rows)| && Table(rows)[i].region == k.region
               && Table(rows)[i].norm == k.norm && Table(rows)[i].year == k.year {
      RowHasKey(rows, k);
    }
    TableOrdered(rows);
  }

  lemma KeyHasRow(rows: seq<Row>, k: Key)
    requires exists j :: 0 <= j < |rows| && RowKey(rows[j]) == Some(k)
    ensures exists i :: 0 <= i < |Table(rows)| && Table(rows)[i].region == k.region
               && Table(rows)[i].norm == k.norm && Table(rows)[i].year == k.year
  {
    var gs := Grouped(rows);
    assert Find(gs, k) == Summary(rows, k);
    var i := FindIndex(gs, k);
    assert Table(rows)[i] == MetricAt(gs, i);
  }

  lemma RowHasKey(rows: seq<Row>, k: Key)
    requires exists i :: 0 <= i < |Table(rows)| && Table(rows)[i].region == k.region
               && Table(rows)[i].norm == k.norm && Table(rows)[i].year == k.year
    ensures exists j :: 0 <= j < |rows| && RowKey(rows[j]) == Some(k)
  {
    var gs := Grouped(rows);
    var t := Table(rows);
    var i :| 0 <= i < |t| && t[i].region == k.region && t[i].norm == k.norm && t[i].year == k.year;
    assert t[i] == MetricAt(gs, i);
    assert gs[i].key == k;
    FindAt(gs, i);
    assert Find(gs, k) == Summary(rows, k);
  }

  lemma TableOrdered(rows: seq<Row>)
    ensures forall i, j :: 0 <= i < j < |Table(rows)| ==>
      KeyLt(Key(Table(rows)[i].region, Table(rows)[i].norm, Table(rows)[i].year),
            Key(Table(rows)[j].region, Table(rows)[j].norm, Table(rows)[j].year))
  {
    var gs := Grouped(rows);
    var t := Table(rows);
    forall i | 0 <= i < |t| ensures Key(t[i].region, t[i].norm, t[i].year) == gs[i].key {
      assert t[i] == MetricAt(gs, i);
    }
  }

  /** The position of a key that `Find` finds. */
  function FindIndex(gs: seq<Group>, k: Key): (i: nat)
    requires Find(gs, k).Some?
    ensures i < |gs| && gs[i].key == k
  {
    if gs[0].key == k then 0 else 1 + FindIndex(gs[1..], k)
  }

  /** `Find` finds every key held by ascending groups. */
  lemma {:induction false} FindAt(gs: seq<Group>, i: nat)
    requires Ascending(gs) && i < |gs|
    ensures Find(gs, gs[i].key) == Some((gs[i].nb, gs[i].pop))
    decreases i
  {
    if i > 0 {
      KeyLtIrreflexive(gs[0].key);
      assert KeyLt(gs[0].key, gs[i].key);
      FindAt(gs[1..], i - 1);
    }
  }
}
