/** The GeoJSON side of the join (02_streamlit/utils.py): detection of the property that
    holds the region name (`guess_geojson_region_key`) and annotation of every feature
    with the normalised key `region_norm` (`geojson_with_norm_names`).

    A FeatureCollection (RFC 7946, sections 3.2 and 3.3) is reduced to what these two
    functions read and write: its list of features, and for each feature its
    `properties` member and its geometry, which is carried along untouched. */
module Geo {
  import opened Wrappers
  import opened Text

  /** A JSON value as the core sees it: a string, `null`, or any other value, given by
      the text Python's `str()` produces for it (the normaliser is applied to that text). */
  datatype Value = Str(s: string) | Null | Other(rendering: string)

  /** A JSON object read into a Python dict: its members in insertion order. */
  type Props = seq<(string, Value)>

  /** The `properties` member of a feature: missing, `null`, or an object. */
  datatype PropsMember = Absent | NullProps | Present(props: Props)

  datatype Feature = Feature(properties: PropsMember, geometry: Value)

  /** The `features` member of a collection: missing, `null`, or a list. */
  datatype FeaturesMember = AbsentFeatures | NullFeatures | Features(list: seq<Feature>)

  datatype Collection = Collection(features: FeaturesMember)

  /** The `TypeError`s the core raises: `None.get` on a feature whose `properties` is
      `null`, and iterating over a `features` member that is `null`. */
  datatype GeoError = NullProperties(index: nat) | NullFeatureList

  /** `gj.get("features", [])` where it is iterated, with `null` read as no features. */
  function FeatureList(gj: Collection): seq<Feature> {
    if gj.features.Features? then gj.features.list else []
  }

  /** The reserved property that receives the normalised key. */
  const RegionNorm: string := "region_norm"

  /** Property names tried first, in priority order. */
  const Candidates: seq<string> := [
    "nom", "Nom", "NOM",
    "name", "Name", "NAME",
    "region", "REGION",
    "libelle", "LIBELLE",
    "nom_region", "NOM_REGION"
  ]

  // ---------------------------------------------------------------------------
  // Dictionaries in insertion order
  // ---------------------------------------------------------------------------

  predicate KeysDistinct(p: Props) {
    forall i, j :: 0 <= i < j < |p| ==> p[i].0 != p[j].0
  }

  predicate HasKey(p: Props, k: string) {
    exists i :: 0 <= i < |p| && p[i].0 == k
  }

  /** `p.get(k)`: the value of the first member named `k`. */
  function Get(p: Props, k: string): (r: Option<Value>)
    ensures r.None? <==> !HasKey(p, k)
    ensures r.Some? ==> exists i :: 0 <= i < |p| && p[i] == (k, r.value)
    ensures KeysDistinct(p) ==> forall i :: 0 <= i < |p| && p[i].0 == k ==> r == Some(p[i].1)
  {
    if p == [] then None
    else if p[0].0 == k then Some(p[0].1)
    else
      var r := Get(p[1..], k);
      assert forall i :: 1 <= i < |p| ==> p[i] == p[1..][i - 1];
      assert HasKey(p[1..], k) ==> HasKey(p, k);
      r
  }

  /** Position of the first member named `k`. */
  function IndexOf(p: Props, k: string): (i: nat)
    requires HasKey(p, k)
    ensures i < |p| && p[i].0 == k && forall j :: 0 <= j < i ==> p[j].0 != k
  {
    if p[0].0 == k then 0
    else
      assert HasKey(p[1..], k) by {
        var j :| 0 <= j < |p| && p[j].0 == k;
        assert p[1..][j - 1].0 == k;
      }
      1 + IndexOf(p[1..], k)
  }

  /** With distinct keys, `Get` finds the member at its one position. */
  lemma GetAt(p: Props, i: nat)
    requires KeysDistinct(p) && i < |p|
    ensures Get(p, p[i].0) == Some(p[i].1)
  {
  }

  /** `p[k] = v`: an existing member keeps its position and takes the new value; a new
      member goes at the end. */
  function Put(p: Props, k: string, v: Value): (r: Props)
    requires KeysDistinct(p)
    ensures KeysDistinct(r)
    ensures Get(r, k) == Some(v)
    ensures forall k' :: k' != k ==> Get(r, k') == Get(p, k')
    ensures HasKey(p, k) ==> |r| == |p| && forall i :: 0 <= i < |p| ==> r[i].0 == p[i].0
    ensures !HasKey(p, k) ==> r == p + [(k, v)]
  {
    if HasKey(p, k) then
      var i := IndexOf(p, k);
      var r := p[i := (k, v)];
      GetAt(r, i);
      forall k' | k' != k ensures Get(r, k') == Get(p, k') {
        if HasKey(p, k') {
          var j := IndexOf(p, k');
          GetAt(p, j);
          GetAt(r, j);
        } else {
          assert !HasKey(r, k');
        }
      }
      r
    else
      var r := p + [(k, v)];
      GetAt(r, |p|);
      forall k' | k' != k ensures Get(r, k') == Get(p, k') {
        if HasKey(p, k') {
          var j := IndexOf(p, k');
          GetAt(p, j);
          GetAt(r, j);
        } else {
          assert !HasKey(r, k');
        }
      }
      r
  }

  // ---------------------------------------------------------------------------
  // guess_geojson_region_key
  // ---------------------------------------------------------------------------

  /** `features[0].get("properties", {}) or {}`. */
  function PropsOrEmpty(f: Feature): Props {
    if f.properties.Present? then f.properties.props else []
  }

  /** A string value with a non-whitespace character: `isinstance(v, str) and v.strip()`. */
  predicate IsText(v: Value) {
    v.Str? && exists i :: 0 <= i < |v.s| && !IsSpace(v.s[i])
  }

  /** Position in `cands` of the first name that `p` has, from `from` on. */
  function FindCandidate(cands: seq<string>, p: Props, from: nat): (r: Option<nat>)
    requires from <= |cands|
    ensures r.Some? ==> from <= r.value < |cands| && HasKey(p, cands[r.value])
                        && forall j :: from <= j < r.value ==> !HasKey(p, cands[j])
    ensures r.None? ==> forall j :: from <= j < |cands| ==> !HasKey(p, cands[j])
    decreases |cands| - from
  {
    if from == |cands| then None
    else if HasKey(p, cands[from]) then Some(from)
    else FindCandidate(cands, p, from + 1)
  }

  /** Position in `p` of the first member whose value is non-blank text, from `from` on. */
  function FindTextKey(p: Props, from: nat): (r: Option<nat>)
    requires from <= |p|
    ensures r.Some? ==> from <= r.value < |p| && IsText(p[r.value].1)
                        && forall j :: from <= j < r.value ==> !IsText(p[j].1)
    ensures r.None? ==> forall j :: from <= j < |p| ==> !IsText(p[j].1)
    decreases |p| - from
  {
    if from == |p| then None
    else if IsText(p[from].1) then Some(from)
    else FindTextKey(p, from + 1)
  }

  predicate NoFeatures(gj: Collection) {
    !gj.features.Features? || gj.features.list == []
  }

  /** `guess_geojson_region_key(gj)`: the property of the first feature that holds the
      region name, found by a chain of fallbacks. */
  function GuessRegionKey(gj: Collection): (r: string)
    // no features at all: the default name
    ensures NoFeatures(gj) ==> r == "nom"
    ensures !NoFeatures(gj) ==>
      var p := PropsOrEmpty(gj.features.list[0]);
      // the earliest candidate name that the first feature has
      && ((exists j :: 0 <= j < |Candidates| && HasKey(p, Candidates[j])) ==>
            exists i :: 0 <= i < |Candidates| && r == Candidates[i] && HasKey(p, r)
                        && forall j :: 0 <= j < i ==> !HasKey(p, Candidates[j]))
      // else the first member holding non-blank text
      && ((forall j :: 0 <= j < |Candidates| ==> !HasKey(p, Candidates[j])) &&
          (exists j :: 0 <= j < |p| && IsText(p[j].1)) ==>
            exists i :: 0 <= i < |p| && r == p[i].0 && IsText(p[i].1)
                        && forall j :: 0 <= j < i ==> !IsText(p[j].1))
      // else the first member, else the default name
      && ((forall j :: 0 <= j < |Candidates| ==> !HasKey(p, Candidates[j])) &&
          (forall j :: 0 <= j < |p| ==> !IsText(p[j].1)) ==>
            r == if p != [] then p[0].0 else "nom")
  {
    if NoFeatures(gj) then "nom"
    else
      var p := PropsOrEmpty(gj.features.list[0]);
      match FindCandidate(Candidates, p, 0)
      case Some(i) => Candidates[i]
      case None =>
        match FindTextKey(p, 0)
        case Some(i) => p[i].0
        case None => if p != [] then p[0].0 else "nom"
  }

  // ---------------------------------------------------------------------------
  // geojson_with_norm_names
  // ---------------------------------------------------------------------------

  /** The text `norm_str` receives for a property value. */
  function NormArg(v: Value): Option<string> {
    match v
    case Str(s) => Some(s)
    case Null => None
    case Other(rendering) => Some(rendering)
  }

  /** `norm_str(props.get(key, ""))`. */
  function KeyOf(t: Tables, p: Props, key: string): string {
    match Get(p, key)
    case Some(v) => NormStr(t, NormArg(v))
    case None => ""
  }

  /** One feature after `props = feat.setdefault("properties", {})` and
      `props["region_norm"] = norm_str(props.get(key, ""))`. */
  function AnnotateFeature(t: Tables, f: Feature, key: string): (r: Feature)
    requires !f.properties.NullProps?
    requires KeysDistinct(PropsOrEmpty(f))
    ensures r.geometry == f.geometry && r.properties.Present?
    ensures var p, q := PropsOrEmpty(f), r.properties.props;
      && KeysDistinct(q)
      && Get(q, RegionNorm) == Some(Str(KeyOf(t, p, key)))
      && (forall k :: k != RegionNorm ==> Get(q, k) == Get(p, k))
      && (HasKey(p, RegionNorm) ==> |q| == |p| && forall i :: 0 <= i < |p| ==> q[i].0 == p[i].0)
      && (!HasKey(p, RegionNorm) ==> q == p + [(RegionNorm, Str(KeyOf(t, p, key)))])
  {
    var p := PropsOrEmpty(f);
    Feature(Present(Put(p, RegionNorm, Str(KeyOf(t, p, key)))), f.geometry)
  }

  predicate WellFormed(gj: Collection) {
    gj.features.Features? ==> forall i :: 0 <= i < |gj.features.list| ==> KeysDistinct(PropsOrEmpty(gj.features.list[i]))
  }

  /** Some feature has `"properties": null`. */
  predicate HasNullProps(fs: seq<Feature>) {
    exists i :: 0 <= i < |fs| && fs[i].properties.NullProps?
  }

  /** `out` is `fs` with every feature annotated under `key`. */
  predicate AnnotatedAll(t: Tables, fs: seq<Feature>, out: seq<Feature>, key: string) {
    |out| == |fs|
    && forall i :: 0 <= i < |fs| ==>
         !fs[i].properties.NullProps? && KeysDistinct(PropsOrEmpty(fs[i]))
         && out[i] == AnnotateFeature(t, fs[i], key)
  }

  lemma AnnotatedStep(t: Tables, fs: seq<Feature>, i: nat, out: seq<Feature>, key: string)
    requires i < |fs| && AnnotatedAll(t, fs[..i], out, key)
    requires !fs[i].properties.NullProps? && KeysDistinct(PropsOrEmpty(fs[i]))
    ensures AnnotatedAll(t, fs[..i + 1], out + [AnnotateFeature(t, fs[i], key)], key)
  {
    assert fs[..i + 1] == fs[..i] + [fs[i]];
  }

  /** `geojson_with_norm_names(gj)`: works on a copy (Dafny values are never shared), detects
      the name key, and stamps `region_norm` on every feature, in order. A feature whose
      `properties` is `null` makes the call fail, as `None.get` does in Python, and so does
      a `features` member that is `null`, which the loop cannot iterate. */
  method GeojsonWithNormNames(t: Tables, gj: Collection) returns (r: Result<(Collection, string), GeoError>)
    requires WellFormed(gj)
    ensures r.Failure? <==> gj.features.NullFeatures? || (gj.features.Features? && HasNullProps(gj.features.list))
    ensures r.Failure? && gj.features.NullFeatures? ==> r.error == NullFeatureList
    ensures r.Failure? && gj.features.Features? ==>
      && r.error.NullProperties?
      && r.error.index < |gj.features.list|
      && gj.features.list[r.error.index].properties.NullProps?
    ensures r.Success? ==>
      && r.value.1 == GuessRegionKey(gj)
      && (gj.features.AbsentFeatures? ==> r.value.0 == gj)
      && (gj.features.Features? ==>
            r.value.0.features.Features? &&
            AnnotatedAll(t, gj.features.list, r.value.0.features.list, r.value.1))
  {
    var key := GuessRegionKey(gj);
    if gj.features.AbsentFeatures? {
      return Success((gj, key));
    }
    if gj.features.NullFeatures? {
      return Failure(NullFeatureList);
    }
    var fs := gj.features.list;
    var out: seq<Feature> := [];
    for i := 0 to |fs|
      invariant AnnotatedAll(t, fs[..i], out, key)
    {
      if fs[i].properties.NullProps? {
        assert HasNullProps(fs);
        return Failure(NullProperties(i));
      }
      AnnotatedStep(t, fs, i, out, key);
      out := out + [AnnotateFeature(t, fs[i], key)];
    }
    assert fs[..|fs|] == fs;
    return Success((Collection(Features(out)), key));
  }
}
