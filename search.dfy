/** The commune search of the dashboard page
    (02_streamlit/pages/2_Tableau_de_bord.py:436-463): one label per distinct commune,
    `"<name> (<department>, <region>) — INSEE <code>"`, a list of at most 3000 labels in
    name order, and the INSEE code read back from the label chosen. */
module Search {
  import opened Wrappers
  import opened Text
  import opened Order

  /** A row of `communes_ref`: `CODGEO_2025`, `nom_commune`, `nom_departement`,
      `nom_region`. */
  datatype Commune = Commune(code: string, name: string, dept: string, region: string)

  /** The separator the code is read back after. */
  const Marker: string := "INSEE "

  /** The label of a commune (lines 440-443); the dash is U+2014. */
  function Label(c: Commune): string {
    c.name + " (" + c.dept + ", " + c.region + ") — " + Marker + c.code
  }

  // ---------------------------------------------------------------------------
  // str.split(sep)
  // ---------------------------------------------------------------------------

  /** `sep` occurs in `s` at position `i`. */
  predicate Occurs(s: string, sep: string, i: nat) {
    i + |sep| <= |s| && s[i..i + |sep|] == sep
  }

  /** The first occurrence of `sep` in `s` at or after `from`, as `str.find` gives it. */
  function FindFrom(s: string, sep: string, from: nat): (r: Option<nat>)
    requires from <= |s|
    ensures r.Some? ==> from <= r.value && Occurs(s, sep, r.value)
    decreases |s| - from
  {
    if Occurs(s, sep, from) then Some(from)
    else if from == |s| then None
    else FindFrom(s, sep, from + 1)
  }

  /** `FindFrom` finds the first occurrence, and finds none only when there is none. */
  lemma {:induction false} FindFromFirst(s: string, sep: string, from: nat)
    requires from <= |s|
    ensures FindFrom(s, sep, from).Some? ==> forall i :: from <= i < FindFrom(s, sep, from).value ==> !Occurs(s, sep, i)
    ensures FindFrom(s, sep, from).None? <==> forall i :: from <= i ==> !Occurs(s, sep, i)
    decreases |s| - from
  {
    if !Occurs(s, sep, from) && from < |s| {
      FindFromFirst(s, sep, from + 1);
    }
  }

  /** `s.split(sep)`: the pieces between the occurrences of `sep`, found from the left
      without overlap. Python refuses an empty separator. */
  function SplitOn(s: string, sep: string): (r: seq<string>)
    requires sep != []
    ensures r != []
    decreases |s|, 1
  {
    SplitAt(s, sep, FindFrom(s, sep, 0))
  }

  /** The split of `s` given where the first occurrence of `sep` is, if any. */
  function SplitAt(s: string, sep: string, found: Option<nat>): (r: seq<string>)
    requires sep != [] && (found.Some? ==> Occurs(s, sep, found.value))
    ensures r != []
    decreases |s|, 0
  {
    match found
    case None => [s]
    case Some(i) => [s[..i]] + SplitOn(s[i + |sep|..], sep)
  }

  /** `sep.join(pieces)`. */
  function JoinOn(pieces: seq<string>, sep: string): string
    requires pieces != []
  {
    if |pieces| == 1 then pieces[0] else pieces[0] + sep + JoinOn(pieces[1..], sep)
  }

  /** `sep.join(s.split(sep)) == s`: splitting loses nothing. */
  lemma {:induction false} JoinSplit(s: string, sep: string)
    requires sep != []
    ensures JoinOn(SplitOn(s, sep), sep) == s
    decreases |s|
  {
    match FindFrom(s, sep, 0)
    case None =>
    case Some(i) =>
      JoinSplit(s[i + |sep|..], sep);
      assert s == s[..i] + sep + s[i + |sep|..];
  }

  /** The last piece of the split is what follows an occurrence at `k` when no occurrence
      overlaps it from the left and none comes after it. */
  lemma {:induction false} LastPiece(s: string, sep: string, k: nat)
    requires sep != [] && Occurs(s, sep, k)
    requires forall i: nat :: k < i + |sep| && i != k ==> !Occurs(s, sep, i)
    ensures SplitOn(s, sep)[|SplitOn(s, sep)| - 1] == s[k + |sep|..]
    decreases |s|, 1
  {
    var f := FirstFound(s, sep, k);
    if f == k {
      NoneAfter(s, sep, k);
      var rest := s[k + |sep|..];
      assert SplitOn(rest, sep) == SplitAt(rest, sep, None) == [rest];
      assert SplitOn(s, sep) == SplitAt(s, sep, Some(k)) == [s[..k]] + [rest];
    } else {
      LastPieceLater(s, sep, k, f);
    }
  }

  /** The first occurrence is the last one, or ends before it. */
  lemma FirstFound(s: string, sep: string, k: nat) returns (f: nat)
    requires sep != [] && Occurs(s, sep, k)
    requires forall i: nat :: k < i + |sep| && i != k ==> !Occurs(s, sep, i)
    ensures FindFrom(s, sep, 0) == Some(f)
    ensures f == k || f + |sep| <= k
  {
    FindFromFirst(s, sep, 0);
    f := FindFrom(s, sep, 0).value;
  }

  /** The last piece when an earlier occurrence comes first: it is the last piece of what
      follows that occurrence. */
  lemma {:induction false} LastPieceLater(s: string, sep: string, k: nat, f: nat)
    requires sep != [] && Occurs(s, sep, k)
    requires forall i: nat :: k < i + |sep| && i != k ==> !Occurs(s, sep, i)
    requires FindFrom(s, sep, 0) == Some(f) && f + |sep| <= k
    ensures SplitOn(s, sep)[|SplitOn(s, sep)| - 1] == s[k + |sep|..]
    decreases |s|, 0
  {
    var rest := s[f + |sep|..];
    var k' := k - f - |sep|;
    ShiftedLast(s, sep, f, k, rest, k');
    LastPiece(rest, sep, k');
    SplitOnLast(s, sep, f);
    assert rest[k' + |sep|..] == s[k + |sep|..];
  }

  /** After a first occurrence at `f`, the last piece is the last piece of what follows. */
  lemma SplitOnLast(s: string, sep: string, f: nat)
    requires sep != [] && FindFrom(s, sep, 0) == Some(f)
    ensures var tail := SplitOn(s[f + |sep|..], sep);
      SplitOn(s, sep)[|SplitOn(s, sep)| - 1] == tail[|tail| - 1]
  {
    var tail := SplitOn(s[f + |sep|..], sep);
    assert SplitOn(s, sep) == SplitAt(s, sep, Some(f)) == [s[..f]] + tail;
    assert (SplitOn(s, sep))[|SplitOn(s, sep)| - 1] == tail[|tail| - 1];
  }

  /** Nothing follows the last occurrence. */
  lemma NoneAfter(s: string, sep: string, k: nat)
    requires sep != [] && Occurs(s, sep, k)
    requires forall i: nat :: k < i + |sep| && i != k ==> !Occurs(s, sep, i)
    ensures FindFrom(s[k + |sep|..], sep, 0).None?
  {
    var rest := s[k + |sep|..];
    forall i: nat ensures !Occurs(rest, sep, i) {
      Shift(s, sep, k + |sep|, i);
    }
    FindFromFirst(rest, sep, 0);
  }

  /** After an earlier occurrence at `f`, the last one is still last in what follows `f`. */
  lemma ShiftedLast(s: string, sep: string, f: nat, k: nat, rest: string, k': int)
    requires sep != [] && Occurs(s, sep, k)
    requires forall i: nat :: k < i + |sep| && i != k ==> !Occurs(s, sep, i)
    requires f + |sep| <= k && rest == s[f + |sep|..] && k' == k - f - |sep|
    ensures k' >= 0 && Occurs(rest, sep, k')
    ensures forall i: nat :: k' < i + |sep| && i != k' ==> !Occurs(rest, sep, i)
  {
    Shift(s, sep, f + |sep|, k');
    forall i: nat | k' < i + |sep| && i != k' ensures !Occurs(rest, sep, i) {
      Shift(s, sep, f + |sep|, i);
    }
  }

  /** An occurrence in a suffix is an occurrence in the whole. */
  lemma Shift(s: string, sep: string, off: nat, i: nat)
    requires off <= |s|
    ensures Occurs(s[off..], sep, i) <==> Occurs(s, sep, off + i)
  {
    if off + i + |sep| <= |s| {
      assert s[off..][i..i + |sep|] == s[off + i..off + i + |sep|];
    }
  }

  // ---------------------------------------------------------------------------
  // The code read back from a label
  // ---------------------------------------------------------------------------

  /** `choice.split("INSEE ")[-1].strip()` (line 463). */
  function ExtractInsee(choice: string): (code: string)
    ensures NoEdgeSpace(code)
  {
    var pieces := SplitOn(choice, Marker);
    Strip(pieces[|pieces| - 1])
  }

  /** A code the label gives back: no "INSEE " inside, no surrounding white space. */
  predicate Recoverable(code: string) {
    NoEdgeSpace(code) && forall i :: 0 <= i < |code| ==> !Occurs(code, Marker, i)
  }

  /** Reading the code back from a commune's label gives its code, whatever its name,
      department and region. */
  lemma LabelRoundTrip(c: Commune)
    requires Recoverable(c.code)
    ensures ExtractInsee(Label(c)) == c.code
  {
    var p := c.name + " (" + c.dept + ", " + c.region + ") — ";
    var s := Label(c);
    assert s == p + Marker + c.code;
    assert p[|p| - 1] == ' ';
    forall i: nat | |p| < i + 6 && i != |p| ensures !Occurs(s, Marker, i) {
      NoOtherMarker(p, c.code, s, i);
    }
    LastPiece(s, Marker, |p|);
    assert s[|p| + 6..] == c.code;
  }

  /** In `p + "INSEE " + code`, with `p` ending in a space and `code` recoverable, no other
      occurrence of the marker overlaps or follows the one after `p`. */
  lemma NoOtherMarker(p: string, code: string, s: string, i: nat)
    requires p != [] && p[|p| - 1] == ' ' && Recoverable(code) && s == p + Marker + code
    requires |p| < i + 6 && i != |p|
    ensures !Occurs(s, Marker, i)
  {
    var k := |p|;
    if i < k {
      assert s[k - 1] == ' ';
      SpaceBlocks(s, i, k - 1);
    } else if i < k + 6 {
      assert s[i] == Marker[i - k];
      NotIBlocks(s, i);
    } else if Occurs(s, Marker, i) {
      assert s[i..i + 6] == code[i - k - 6..i - k];
      assert Occurs(code, Marker, i - k - 6);
    }
  }

  /** "INSEE " does not occur across a space in its first five places. */
  lemma SpaceBlocks(s: string, i: nat, p: nat)
    requires i <= p < i + 5 && p < |s| && s[p] == ' '
    ensures !Occurs(s, Marker, i)
  {
    if i + 6 <= |s| {
      assert s[i..i + 6][p - i] == s[p];
    }
  }

  /** "INSEE " only occurs at an 'I'. */
  lemma NotIBlocks(s: string, i: nat)
    requires i < |s| && s[i] != 'I'
    ensures !Occurs(s, Marker, i)
  {
    if i + 6 <= |s| {
      assert s[i..i + 6][0] == s[i];
    }
  }

  // ---------------------------------------------------------------------------
  // The option list without a filter
  // ---------------------------------------------------------------------------

  /** No row twice. */
  predicate Distinct(s: seq<Commune>) {
    forall i, j :: 0 <= i < j < |s| ==> s[i] != s[j]
  }

  /** `drop_duplicates()`: each distinct row once, at its first occurrence. */
  function DropDuplicates(rows: seq<Commune>): (r: seq<Commune>)
    ensures Distinct(r)
    ensures forall x :: x in r <==> x in rows
  {
    if rows == [] then []
    else
      var prev := DropDuplicates(rows[..|rows| - 1]);
      var x := rows[|rows| - 1];
      assert rows == rows[..|rows| - 1] + [x];
      if x in prev then prev else prev + [x]
  }

  /** In name order. */
  predicate ByName(s: seq<Commune>) {
    forall i, j :: 0 <= i < j < |s| ==> StrLe(s[i].name, s[j].name)
  }

  function InsertByName(x: Commune, s: seq<Commune>): (r: seq<Commune>)
    requires ByName(s)
    ensures ByName(r)
    ensures multiset(r) == multiset(s) + multiset{x}
  {
    if s == [] then [x]
    else if StrLe(x.name, s[0].name) then
      InsertFirst(x, s);
      [x] + s
    else
      var tail := InsertByName(x, s[1..]);
      InsertAfterHead(x, s, tail);
      [s[0]] + tail
  }

  /** A row named no later than the first stays in name order in front. */
  lemma InsertFirst(x: Commune, s: seq<Commune>)
    requires ByName(s) && s != [] && StrLe(x.name, s[0].name)
    ensures ByName([x] + s)
  {
    forall j | 0 <= j < |s| ensures StrLe(x.name, s[j].name) {
      StrLeTransitive(x.name, s[0].name, s[j].name);
    }
    var r := [x] + s;
    forall i, j | 0 <= i < j < |r| ensures StrLe(r[i].name, r[j].name) {
      if i > 0 {
        assert r[i] == s[i - 1] && r[j] == s[j - 1];
      }
    }
  }

  /** Inserting a row named after the first into the rest keeps the first row in front. */
  lemma InsertAfterHead(x: Commune, s: seq<Commune>, tail: seq<Commune>)
    requires ByName(s) && s != [] && !StrLe(x.name, s[0].name)
    requires ByName(tail) && multiset(tail) == multiset(s[1..]) + multiset{x}
    ensures ByName([s[0]] + tail)
    ensures multiset([s[0]] + tail) == multiset(s) + multiset{x}
  {
    StrLtTotal(x.name, s[0].name);
    assert s == [s[0]] + s[1..];
    forall j | 0 <= j < |tail| ensures StrLe(s[0].name, tail[j].name) {
      assert tail[j] in multiset(tail);
      if tail[j] != x {
        assert tail[j] in multiset(s[1..]);
        var i :| 0 <= i < |s[1..]| && s[1..][i] == tail[j];
        assert s[1..][i] == s[i + 1];
      }
    }
    var r := [s[0]] + tail;
    forall i, j | 0 <= i < j < |r| ensures StrLe(r[i].name, r[j].name) {
      if i > 0 {
        assert r[i] == tail[i - 1] && r[j] == tail[j - 1];
      } else {
        assert r[j] == tail[j - 1];
      }
    }
  }

  /** `sort_values("nom_commune")`: the same rows in name order. */
  function SortByName(s: seq<Commune>): (r: seq<Commune>)
    ensures ByName(r)
    ensures multiset(r) == multiset(s)
  {
    if s == [] then []
    else
      assert s == [s[0]] + s[1..];
      InsertByName(s[0], SortByName(s[1..]))
  }

  /** The communes behind the options (lines 447-455, empty filter): at most 3000 distinct
      communes of the table, in name order, none named after a commune left out, and all
      of them when there are at most 3000. */
  function Shown(rows: seq<Commune>): (r: seq<Commune>)
    ensures |r| == if |DropDuplicates(rows)| < 3000 then |DropDuplicates(rows)| else 3000
    ensures ByName(r) && Distinct(r)
    ensures forall x :: x in r ==> x in rows
    ensures forall x, y :: x in r && y in rows && y !in r ==> StrLe(x.name, y.name)
    ensures |DropDuplicates(rows)| <= 3000 ==> forall x :: x in rows ==> x in r
  {
    var d := DropDuplicates(rows);
    var s := SortByName(d);
    var m := if |s| < 3000 then |s| else 3000;
    assert |s| == |multiset(s)| == |multiset(d)| == |d|;
    ShownFromRows(rows, d, s, m);
    ShownDistinct(d, s, m);
    ShownCutoff(rows, d, s, m);
    s[..m]
  }

  /** A prefix of a rearrangement of `DropDuplicates(rows)` holds rows of `rows`. */
  lemma ShownFromRows(rows: seq<Commune>, d: seq<Commune>, s: seq<Commune>, m: nat)
    requires d == DropDuplicates(rows) && multiset(s) == multiset(d) && m <= |s|
    ensures forall x :: x in s[..m] ==> x in rows
  {
    forall x | x in s[..m] ensures x in rows {
      assert x in multiset(s);
    }
  }

  /** A prefix of a rearrangement of distinct rows is distinct. */
  lemma ShownDistinct(d: seq<Commune>, s: seq<Commune>, m: nat)
    requires Distinct(d) && multiset(s) == multiset(d) && m <= |s|
    ensures Distinct(s[..m])
  {
    forall i, j | 0 <= i < j < m ensures s[..m][i] != s[..m][j] {
      DistinctAfterSort(d, s, i, j);
    }
  }

  /** A prefix of the rows in name order: no row left out is named before a row kept,
      and with at most 3000 rows every row is kept. */
  lemma ShownCutoff(rows: seq<Commune>, d: seq<Commune>, s: seq<Commune>, m: nat)
    requires d == DropDuplicates(rows) && multiset(s) == multiset(d) && ByName(s)
    requires m == if |s| < 3000 then |s| else 3000
    ensures forall x, y :: x in s[..m] && y in rows && y !in s[..m] ==> StrLe(x.name, y.name)
    ensures |d| <= 3000 ==> forall x :: x in rows ==> x in s[..m]
  {
    var r := s[..m];
    forall x, y | x in r && y in rows && y !in r ensures StrLe(x.name, y.name) {
      assert y in multiset(s);
      var j :| 0 <= j < |s| && s[j] == y;
      var i :| 0 <= i < m && s[i] == x;
    }
    forall x | x in rows && |d| <= 3000 ensures x in r {
      assert x in multiset(d);
      assert r == s;
    }
  }

  /** A rearrangement of distinct rows is distinct. */
  lemma DistinctAfterSort(d: seq<Commune>, s: seq<Commune>, i: nat, j: nat)
    requires Distinct(d) && multiset(s) == multiset(d) && i < j < |s|
    ensures s[i] != s[j]
  {
    if s[i] == s[j] {
      var x := s[i];
      assert s == s[..i] + [x] + s[i + 1..j] + [x] + s[j + 1..];
      assert multiset(s)[x] >= 2;
      CountOnce(d, x);
      assert false;
    }
  }

  lemma {:induction false} CountOnce(d: seq<Commune>, x: Commune)
    requires Distinct(d)
    ensures multiset(d)[x] <= 1
    decreases |d|
  {
    if d != [] {
      CountOnce(d[1..], x);
      assert d == [d[0]] + d[1..];
      if d[0] == x {
        assert x !in d[1..];
      }
    }
  }

  /** `communes_ref.sort_values("nom_commune")["label"].head(3000).tolist()`. */
  function Options(rows: seq<Commune>): (r: seq<string>)
    ensures |r| == |Shown(rows)| <= 3000
    ensures forall i :: 0 <= i < |r| ==> r[i] == Label(Shown(rows)[i])
  {
    var shown := Shown(rows);
    seq(|shown|, i requires 0 <= i < |shown| => Label(shown[i]))
  }

  /** Choosing any option whose commune has a recoverable code reads back that code. */
  lemma OptionsReadBack(rows: seq<Commune>, i: nat)
    requires i < |Options(rows)| && Recoverable(Shown(rows)[i].code)
    ensures ExtractInsee(Options(rows)[i]) == Shown(rows)[i].code
  {
    LabelRoundTrip(Shown(rows)[i]);
  }
}
