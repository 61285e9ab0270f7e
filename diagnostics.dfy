/** `compute_matching_diagnostics` (02_streamlit/utils.py:199-219): how well the
    normalised region keys of the metrics table and of the annotated GeoJSON agree. */
module Diagnostics {
  import opened Wrappers
  import opened Order
  import opened Geo

  /** The report: the number of distinct keys on each side, and the keys of each side
      that the other lacks, sorted. */
  datatype Report = Report(nData: nat, nGeo: nat, missingInGeo: seq<string>, missingInData: seq<string>)

  /** A `region_norm` value kept on the GeoJSON side: a non-empty string (`if r`). */
  function GeoKey(v: Option<Value>): (r: Option<string>)
    ensures r.Some? <==> v.Some? && v.value.Str? && v.value.s != []
    ensures r.Some? ==> r.value == v.value.s
  {
    if v.Some? && v.value.Str? && v.value.s != [] then Some(v.value.s) else None
  }

  /** The key a feature contributes, if any. */
  function FeatureKey(f: Feature): Option<string> {
    GeoKey(Get(PropsOrEmpty(f), RegionNorm))
  }

  /** The keys read from the features, in order; a feature with `"properties": null` makes
      the read fail, as `None.get` does in Python (`GeoKeysExactly` says which keys). */
  function GeoKeys(fs: seq<Feature>): (r: Result<seq<string>, GeoError>)
    ensures r.Failure? <==> HasNullProps(fs)
    ensures r.Failure? ==> r.error.NullProperties? && r.error.index < |fs| && fs[r.error.index].properties.NullProps?
  {
    if fs == [] then Success([])
    else
      var init := fs[..|fs| - 1];
      var f := fs[|fs| - 1];
      assert forall i :: 0 <= i < |init| ==> init[i] == fs[i];
      match GeoKeys(init)
      case Failure(e) => Failure(e)
      case Success(ks) =>
        if f.properties.NullProps? then Failure(NullProperties(|fs| - 1))
        else Success(if FeatureKey(f).Some? then ks + [FeatureKey(f).value] else ks)
  }

  /** The keys read are exactly the keys the features contribute. */
  lemma {:induction false} GeoKeysExactly(fs: seq<Feature>)
    requires GeoKeys(fs).Success?
    ensures forall y :: y in GeoKeys(fs).value <==> exists i :: 0 <= i < |fs| && FeatureKey(fs[i]) == Some(y)
    decreases |fs|
  {
    if fs != [] {
      var init := fs[..|fs| - 1];
      var f := fs[|fs| - 1];
      assert forall i :: 0 <= i < |init| ==> init[i] == fs[i];
      GeoKeysExactly(init);
      assert fs == init + [f];
      GeoKeysStep(init, f, GeoKeys(init).value, GeoKeys(fs).value);
    }
  }

  /** Reading one more feature adds its key, if any. */
  lemma GeoKeysStep(init: seq<Feature>, f: Feature, ks: seq<string>, out: seq<string>)
    requires forall y :: y in ks <==> exists i :: 0 <= i < |init| && FeatureKey(init[i]) == Some(y)
    requires out == if FeatureKey(f).Some? then ks + [FeatureKey(f).value] else ks
    ensures forall y :: y in out <==> exists i :: 0 <= i < |init + [f]| && FeatureKey((init + [f])[i]) == Some(y)
  {
    var fs := init + [f];
    forall y | y in out ensures exists i :: 0 <= i < |fs| && FeatureKey(fs[i]) == Some(y) {
      StepFound(init, f, ks, out, y);
    }
    forall y | exists i :: 0 <= i < |fs| && FeatureKey(fs[i]) == Some(y) ensures y in out {
      var i :| 0 <= i < |fs| && FeatureKey(fs[i]) == Some(y);
      StepKept(init, f, ks, out, y, i);
    }
  }

  lemma StepFound(init: seq<Feature>, f: Feature, ks: seq<string>, out: seq<string>, y: string)
    requires forall y :: y in ks ==> exists i :: 0 <= i < |init| && FeatureKey(init[i]) == Some(y)
    requires out == if FeatureKey(f).Some? then ks + [FeatureKey(f).value] else ks
    requires y in out
    ensures exists i :: 0 <= i < |init + [f]| && FeatureKey((init + [f])[i]) == Some(y)
  {
    var fs := init + [f];
    if y in ks {
      var i :| 0 <= i < |init| && FeatureKey(init[i]) == Some(y);
      assert fs[i] == init[i];
    } else {
      assert FeatureKey(fs[|init|]) == Some(y);
    }
  }

  lemma StepKept(init: seq<Feature>, f: Feature, ks: seq<string>, out: seq<string>, y: string, i: nat)
    requires forall y :: (exists i :: 0 <= i < |init| && FeatureKey(init[i]) == Some(y)) ==> y in ks
    requires out == if FeatureKey(f).Some? then ks + [FeatureKey(f).value] else ks
    requires i < |init| + 1 && FeatureKey((init + [f])[i]) == Some(y)
    ensures y in out
  {
    if i < |init| {
      assert (init + [f])[i] == init[i];
    }
  }

  /** `g_y["nom_region_norm"].dropna()`. */
  function DataKeys(col: seq<Option<string>>): (r: seq<string>)
    ensures forall y :: y in r <==> Some(y) in col
  {
    if col == [] then []
    else
      var init := DataKeys(col[..|col| - 1]);
      assert col == col[..|col| - 1] + [col[|col| - 1]];
      if col[|col| - 1].Some? then init + [col[|col| - 1].value] else init
  }

  /** The elements of `xs` that are not in `ys`. */
  function Without(xs: seq<string>, ys: seq<string>): (r: seq<string>)
    ensures forall y :: y in r <==> y in xs && y !in ys
  {
    if xs == [] then []
    else if xs[0] in ys then Without(xs[1..], ys)
    else [xs[0]] + Without(xs[1..], ys)
  }

  /** The number of distinct elements of `xs`. */
  function Distinct(xs: seq<string>): nat {
    |set y | y in xs|
  }

  /** `compute_matching_diagnostics(g_y, geojson_norm)`; a `features` member that is `null`
      cannot be iterated and makes the call fail. */
  function Diagnose(col: seq<Option<string>>, gj: Collection): (r: Result<Report, GeoError>)
    ensures r.Failure? <==> gj.features.NullFeatures? || HasNullProps(FeatureList(gj))
    ensures r.Failure? ==> (r.error == NullFeatureList <==> gj.features.NullFeatures?)
    ensures r.Success? ==>
      var geo := GeoKeys(FeatureList(gj)).value;
      var data := DataKeys(col);
      && r.value.nData == Distinct(data) && r.value.nGeo == Distinct(geo)
      && StrictlyAscending(r.value.missingInGeo)
      && StrictlyAscending(r.value.missingInData)
      && (forall y :: y in r.value.missingInGeo <==> y in data && y !in geo)
      && (forall y :: y in r.value.missingInData <==> y in geo && y !in data)
      && (forall y :: !(y in r.value.missingInGeo && y in r.value.missingInData))
  {
    if gj.features.NullFeatures? then Failure(NullFeatureList)
    else
    match GeoKeys(FeatureList(gj))
    case Failure(e) => Failure(e)
    case Success(geo) =>
      var data := DataKeys(col);
      Success(Report(Distinct(data), Distinct(geo), SortedSet(Without(data, geo)), SortedSet(Without(geo, data))))
  }

  /** The two lists are exactly `sorted(data - geo)` and `sorted(geo - data)`: a strictly
      ascending list with those elements is unique. */
  lemma MissingAreSortedDifferences(col: seq<Option<string>>, gj: Collection, a: seq<string>, b: seq<string>)
    requires Diagnose(col, gj).Success?
    requires var geo := GeoKeys(FeatureList(gj)).value;
      var data := DataKeys(col);
      && StrictlyAscending(a) && (forall y :: y in a <==> y in data && y !in geo)
      && StrictlyAscending(b) && (forall y :: y in b <==> y in geo && y !in data)
    ensures Diagnose(col, gj).value.missingInGeo == a
    ensures Diagnose(col, gj).value.missingInData == b
  {
    var rep := Diagnose(col, gj).value;
    AscendingUnique(rep.missingInGeo, a);
    AscendingUnique(rep.missingInData, b);
  }
}
