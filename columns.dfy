/** Case-insensitive column detection of the dashboard page
    (02_streamlit/pages/2_Tableau_de_bord.py:8-28): `guess_class_col` and
    `guess_commune_col` look up a fixed list of candidate names among the lower-cased
    column names. */
module Columns {
  import opened Wrappers
  import opened Text

  /** Candidate names of the column holding the detailed offence label, in priority order. */
  const ClassCandidates: seq<string> := [
    "classe_infraction", "classe", "categorie", "cat", "type_infraction",
    "type", "nature", "indicateur", "libelle", "infractions", "infraction"
  ]

  /** Candidate names of the commune column, in priority order. */
  const CommuneCandidates: seq<string> := [
    "nom_commune", "commune", "libelle_commune", "nom_comm", "ville", "nom_ville"
  ]

  /** Column `c` is the last column, in column order, whose lower-cased name is `k`. */
  predicate LastWith(t: Tables, cols: seq<string>, k: string, c: string) {
    exists i :: 0 <= i < |cols| && cols[i] == c && LowerAll(t, cols[i]) == k
      && forall j :: i < j < |cols| ==> LowerAll(t, cols[j]) != k
  }

  /** Some column lower-cases to `k`. */
  predicate Lowers(t: Tables, cols: seq<string>, k: string) {
    exists i :: 0 <= i < |cols| && LowerAll(t, cols[i]) == k
  }

  /** `{c.lower(): c for c in cols}`: a later column overwrites an earlier one with the same
      lower-cased name. */
  function LowerIndex(t: Tables, cols: seq<string>): (m: map<string, string>)
    ensures forall k :: k in m <==> Lowers(t, cols, k)
    ensures forall k :: k in m ==> LastWith(t, cols, k, m[k])
  {
    if cols == [] then map[]
    else
      var prev := LowerIndex(t, cols[..|cols| - 1]);
      var m := prev[LowerAll(t, cols[|cols| - 1]) := cols[|cols| - 1]];
      IndexDomain(t, cols, prev, m);
      IndexLast(t, cols, prev, m);
      m
  }

  /** Adding the last column adds its lower-cased name to the keys. */
  lemma IndexDomain(t: Tables, cols: seq<string>, prev: map<string, string>, m: map<string, string>)
    requires cols != [] && m == prev[LowerAll(t, cols[|cols| - 1]) := cols[|cols| - 1]]
    requires forall k :: k in prev <==> Lowers(t, cols[..|cols| - 1], k)
    ensures forall k :: k in m <==> Lowers(t, cols, k)
  {
    var init, c := cols[..|cols| - 1], cols[|cols| - 1];
    forall k | Lowers(t, cols, k) ensures k in prev || k == LowerAll(t, c) {
      var i :| 0 <= i < |cols| && LowerAll(t, cols[i]) == k;
      if i < |init| {
        assert cols[i] == init[i];
      }
    }
    forall k | k in prev ensures Lowers(t, cols, k) {
      var i :| 0 <= i < |init| && LowerAll(t, init[i]) == k;
      assert cols[i] == init[i];
    }
  }

  /** The last column wins its key; every other key keeps its column, which no later
      column overrides. */
  lemma IndexLast(t: Tables, cols: seq<string>, prev: map<string, string>, m: map<string, string>)
    requires cols != [] && m == prev[LowerAll(t, cols[|cols| - 1]) := cols[|cols| - 1]]
    requires forall k :: k in prev ==> LastWith(t, cols[..|cols| - 1], k, prev[k])
    ensures forall k :: k in m ==> LastWith(t, cols, k, m[k])
  {
    var init, c := cols[..|cols| - 1], cols[|cols| - 1];
    forall k | k in m ensures LastWith(t, cols, k, m[k]) {
      if k == LowerAll(t, c) {
        assert cols[|init|] == m[k];
      } else {
        var i :| 0 <= i < |init| && init[i] == m[k] && LowerAll(t, init[i]) == k
          && forall j :: i < j < |init| ==> LowerAll(t, init[j]) != k;
        assert cols[i] == init[i];
        forall j | i < j < |cols| ensures LowerAll(t, cols[j]) != k {
          if j < |init| {
            assert cols[j] == init[j];
          }
        }
      }
    }
  }

  /** The position of the first candidate, from `from` on, that is a key of `m`. */
  function FirstIn(cands: seq<string>, m: map<string, string>, from: nat): (r: Option<nat>)
    requires from <= |cands|
    ensures r.Some? ==> from <= r.value < |cands| && cands[r.value] in m
                        && forall i :: from <= i < r.value ==> cands[i] !in m
    ensures r.None? ==> forall i :: from <= i < |cands| ==> cands[i] !in m
    decreases |cands| - from
  {
    if from == |cands| then None
    else if cands[from] in m then Some(from)
    else FirstIn(cands, m, from + 1)
  }

  /** The detection loop shared by both helpers: the original-cased column of the earliest
      candidate that some lower-cased column name equals, or `None`. */
  function GuessCol(t: Tables, cands: seq<string>, cols: seq<string>): (r: Option<string>)
    ensures r.None? <==> forall i :: 0 <= i < |cands| ==> !Lowers(t, cols, cands[i])
    ensures r.Some? ==> exists i :: 0 <= i < |cands| && LastWith(t, cols, cands[i], r.value)
                          && forall i' :: 0 <= i' < i ==> !Lowers(t, cols, cands[i'])
  {
    var m := LowerIndex(t, cols);
    match FirstIn(cands, m, 0)
    case None => None
    case Some(i) => Some(m[cands[i]])
  }

  /** `guess_class_col(df)`: a column of `df` whose lower-cased name is a class candidate,
      or `None` exactly when there is none. */
  function GuessClassCol(t: Tables, cols: seq<string>): (r: Option<string>)
    ensures r.None? <==> forall i :: 0 <= i < |ClassCandidates| ==> !Lowers(t, cols, ClassCandidates[i])
    ensures r.Some? ==> r.value in cols && LowerAll(t, r.value) in ClassCandidates
    ensures r.Some? ==> exists i :: 0 <= i < |ClassCandidates| && LastWith(t, cols, ClassCandidates[i], r.value)
                          && forall i' :: 0 <= i' < i ==> !Lowers(t, cols, ClassCandidates[i'])
  {
    GuessCol(t, ClassCandidates, cols)
  }

  /** `guess_commune_col(df)`: a column of `df` whose lower-cased name is a commune candidate,
      or `None` exactly when there is none. */
  function GuessCommuneCol(t: Tables, cols: seq<string>): (r: Option<string>)
    ensures r.None? <==> forall i :: 0 <= i < |CommuneCandidates| ==> !Lowers(t, cols, CommuneCandidates[i])
    ensures r.Some? ==> r.value in cols && LowerAll(t, r.value) in CommuneCandidates
    ensures r.Some? ==> exists i :: 0 <= i < |CommuneCandidates| && LastWith(t, cols, CommuneCandidates[i], r.value)
                          && forall i' :: 0 <= i' < i ==> !Lowers(t, cols, CommuneCandidates[i'])
  {
    GuessCol(t, CommuneCandidates, cols)
  }

  /** Candidate priority wins over column order: when a column lower-cases to an earlier
      candidate, no column matching a later one is chosen. */
  lemma EarlierCandidateWins(t: Tables, cands: seq<string>, cols: seq<string>, a: nat, b: nat)
    requires a < b < |cands| && cands[b] !in cands[..b] && Lowers(t, cols, cands[a])
    ensures GuessCol(t, cands, cols).Some?
    ensures LowerAll(t, GuessCol(t, cands, cols).value) != cands[b]
  {
    var r := GuessCol(t, cands, cols);
    var i :| 0 <= i < |cands| && LastWith(t, cols, cands[i], r.value)
             && forall i' :: 0 <= i' < i ==> !Lowers(t, cols, cands[i']);
    assert i <= a;
    assert cands[i] == cands[..b][i];
  }
}
