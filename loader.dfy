/** The post-processing half of `load_data` (02_streamlit/utils.py:106-121): once the CSV
    is parsed, the rows whose count or population was not published are dropped, and every
    row receives the normalised region key `nom_region_norm`. */
module Loader {
  import opened Wrappers
  import opened Text

  /** Column names the loader and the metrics builder rely on. */
  const Count: string := "nombre"
  const Pop: string := "insee_pop"
  const Region: string := "nom_region"
  const RegionNorm: string := "nom_region_norm"
  const Year: string := "annee"

  /** One parsed CSV row. A field is `None` when its cell is empty or not numeric (pandas'
      NaN after `to_numeric(errors="coerce")`), or when its column does not exist; the
      cells of every other column ride along in `other`. */
  datatype Row = Row(
    region: Option<string>,
    regionNorm: Option<string>,
    year: Option<int>,
    count: Option<real>,
    pop: Option<real>,
    other: seq<Option<string>>)

  /** A parsed table: the names of its columns and its rows in file order. */
  datatype Frame = Frame(columns: set<string>, rows: seq<Row>)

  /** Whether the row survives the "non diffusé" filter: only when both the count and the
      population columns exist are rows with a missing value dropped. */
  predicate Published(cols: set<string>, row: Row) {
    (Count in cols && Pop in cols) ==> row.count.Some? && row.pop.Some?
  }

  /** `df[df["nombre"].notna() & df["insee_pop"].notna()]`, or `df` itself when either
      column is absent. */
  function Kept(cols: set<string>, rows: seq<Row>): (r: seq<Row>)
    ensures |r| <= |rows|
    ensures forall x :: x in r ==> x in rows && Published(cols, x)
    ensures forall x :: x in rows && Published(cols, x) ==> x in r
    ensures !(Count in cols && Pop in cols) ==> r == rows
  {
    if rows == [] then []
    else
      var init := Kept(cols, rows[..|rows| - 1]);
      var last := rows[|rows| - 1];
      assert rows == rows[..|rows| - 1] + [last];
      if Published(cols, last) then init + [last] else init
  }

  /** Filtering distributes over concatenation: kept rows stay in their original relative
      order. */
  lemma {:induction false} KeptAppend(cols: set<string>, a: seq<Row>, b: seq<Row>)
    ensures Kept(cols, a + b) == Kept(cols, a) + Kept(cols, b)
    decreases |b|
  {
    if b == [] {
      assert a + b == a;
    } else {
      var b' := b[..|b| - 1];
      assert (a + b)[..|a + b| - 1] == a + b';
      KeptAppend(cols, a, b');
    }
  }

  /** A single row is kept exactly when it is published. */
  lemma KeptSingle(cols: set<string>, x: Row)
    ensures Kept(cols, [x]) == if Published(cols, x) then [x] else []
  {
    assert [x][..0] == [];
  }

  /** Filtering twice is filtering once. */
  lemma {:induction false} KeptIdempotent(cols: set<string>, rows: seq<Row>)
    ensures Kept(cols, Kept(cols, rows)) == Kept(cols, rows)
    decreases |rows|
  {
    if rows != [] {
      var init := rows[..|rows| - 1];
      var last := rows[|rows| - 1];
      KeptIdempotent(cols, init);
      KeptAppend(cols, Kept(cols, init), [last]);
      KeptSingle(cols, last);
      if !Published(cols, last) {
        assert Kept(cols, rows) == Kept(cols, init);
      }
    }
  }

  /** `norm_str` as `Series.map` applies it: a missing region arrives as the float NaN, whose
      text is "nan". */
  function RegionKey(t: Tables, region: Option<string>): (r: string)
    ensures region.Some? ==> r == NormStr(t, region)
    ensures region.None? ==> r == NormStr(t, Some("nan"))
    ensures Collapsed(r) && NoEdgeSpace(r)
  {
    NormStr(t, Some(if region.Some? then region.value else "nan"))
  }

  /** The row after `df["nom_region_norm"] = df["nom_region"].map(norm_str)`. */
  function WithKey(t: Tables, cols: set<string>, row: Row): Row {
    if Region in cols then row.(regionNorm := Some(RegionKey(t, row.region))) else row
  }

  /** Every row with its key column. */
  function WithKeys(t: Tables, cols: set<string>, rows: seq<Row>): (r: seq<Row>)
    ensures |r| == |rows|
    ensures Region !in cols ==> r == rows
  {
    if rows == [] then []
    else
      assert rows == rows[..|rows| - 1] + [rows[|rows| - 1]];
      WithKeys(t, cols, rows[..|rows| - 1]) + [WithKey(t, cols, rows[|rows| - 1])]
  }

  /** Row `i` of the keyed rows is input row `i` with its key. */
  lemma {:induction false} WithKeysAt(t: Tables, cols: set<string>, rows: seq<Row>, i: nat)
    requires i < |rows|
    ensures WithKeys(t, cols, rows)[i] == WithKey(t, cols, rows[i])
    decreases |rows|
  {
    if i < |rows| - 1 {
      WithKeysAt(t, cols, rows[..|rows| - 1], i);
    }
  }

  /** The rows `load_data` returns for parsed rows `rows` with columns `cols`. */
  function Prepared(t: Tables, cols: set<string>, rows: seq<Row>): seq<Row> {
    WithKeys(t, cols, Kept(cols, rows))
  }

  /** The columns of the result: `nom_region_norm` is added when `nom_region` exists. */
  function PreparedColumns(cols: set<string>): set<string> {
    if Region in cols then cols + {RegionNorm} else cols
  }

  /** `load_data` from the parsed frame on: the filter, then the key column. */
  method LoadData(t: Tables, df: Frame) returns (r: Frame)
    ensures r.columns == PreparedColumns(df.columns)
    ensures r.rows == Prepared(t, df.columns, df.rows)
  {
    var cols := df.columns;
    var rows := df.rows;
    if Count in cols && Pop in cols {
      rows := DropUnpublished(cols, rows);
    }
    if Region in cols {
      rows := AddRegionKeys(t, cols, rows);
      cols := cols + {RegionNorm};
    }
    return Frame(cols, rows);
  }

  /** The row filter, one row at a time. */
  method DropUnpublished(cols: set<string>, rows: seq<Row>) returns (kept: seq<Row>)
    requires Count in cols && Pop in cols
    ensures kept == Kept(cols, rows)
  {
    kept := [];
    for i := 0 to |rows|
      invariant kept == Kept(cols, rows[..i])
    {
      assert rows[..i + 1][..i] == rows[..i];
      if rows[i].count.Some? && rows[i].pop.Some? {
        kept := kept + [rows[i]];
      }
    }
    assert rows[..|rows|] == rows;
  }

  /** The column assignment `df["nom_region_norm"] = df["nom_region"].map(norm_str)`. */
  method AddRegionKeys(t: Tables, cols: set<string>, rows: seq<Row>) returns (keyed: seq<Row>)
    requires Region in cols
    ensures keyed == WithKeys(t, cols, rows)
  {
    keyed := [];
    for i := 0 to |rows|
      invariant keyed == WithKeys(t, cols, rows[..i])
    {
      assert rows[..i + 1][..i] == rows[..i];
      keyed := keyed + [WithKey(t, cols, rows[i])];
    }
    assert rows[..|rows|] == rows;
  }

  /** What the loader promises about every row it returns: it was an input row, it is
      published, and it carries the normalised key of its region when the region column
      exists; with both value columns present and no missing value, no row is lost. */
  lemma PreparedRows(t: Tables, cols: set<string>, rows: seq<Row>)
    ensures forall x :: x in Prepared(t, cols, rows) ==>
      Published(cols, x)
      && (Region in cols ==> x.regionNorm == Some(RegionKey(t, x.region)))
      && exists y :: y in rows && x == WithKey(t, cols, y)
    ensures (forall y :: y in rows ==> Published(cols, y)) ==> |Prepared(t, cols, rows)| == |rows|
  {
    var kept := Kept(cols, rows);
    forall x | x in Prepared(t, cols, rows)
      ensures Published(cols, x)
      ensures Region in cols ==> x.regionNorm == Some(RegionKey(t, x.region))
      ensures exists y :: y in rows && x == WithKey(t, cols, y)
    {
      var i :| 0 <= i < |kept| && x == WithKeys(t, cols, kept)[i];
      WithKeysAt(t, cols, kept, i);
      assert kept[i] in kept;
    }
    if forall y :: y in rows ==> Published(cols, y) {
      AllPublished(cols, rows);
    }
  }

  /** When every row is published the filter keeps them all. */
  lemma {:induction false} AllPublished(cols: set<string>, rows: seq<Row>)
    requires forall y :: y in rows ==> Published(cols, y)
    ensures Kept(cols, rows) == rows
    decreases |rows|
  {
    if rows != [] {
      var init := rows[..|rows| - 1];
      assert forall y :: y in init ==> y in rows;
      AllPublished(cols, init);
      assert rows[|rows| - 1] in rows;
      assert init + [rows[|rows| - 1]] == rows;
    }
  }
}
