/** The join-key normaliser `norm_str` (02_streamlit/utils.py): strip, lower-case,
    canonical decomposition (NFD), removal of non-spacing marks (category Mn), and
    collapse of whitespace runs into single spaces.

    The Unicode tables are not part of the model: they are passed in as a `Tables`
    value, and the laws the normaliser relies on are collected in `Lawful`.
    Python's whitespace class, which `str.strip()` and `str.split()` share, is small
    and fixed, so it is written out in `IsSpace`. */
module Text {
  import opened Wrappers

  /** Python's `str.isspace()` characters: the separators used by `strip()` and `split()`. */
  predicate IsSpace(c: char) {
    if c <= ' ' then ('\t' <= c <= '\r') || '\U{1C}' <= c
    else if c < '\U{85}' then false
    else if c <= '\U{A0}' then c == '\U{85}' || c == '\U{A0}'
    else if c < '\U{1680}' then false
    else
      || c == '\U{1680}'
      || ('\U{2000}' <= c <= '\U{200A}')
      || c == '\U{2028}' || c == '\U{2029}' || c == '\U{202F}' || c == '\U{205F}' || c == '\U{3000}'
  }

  /** The Unicode tables the normaliser consults: full lower-case mapping, full canonical
      decomposition of one character, and membership of the general category Mn. */
  datatype Tables = Tables(lower: char -> seq<char>, decompose: char -> seq<char>, isMark: char -> bool)

  /** A character that lower-casing, decomposition and mark removal all leave alone. */
  predicate Canonical(t: Tables, c: char) {
    t.lower(c) == [c] && t.decompose(c) == [c] && !t.isMark(c)
  }

  /** The laws of the tables that the normaliser depends on: lower-casing is idempotent,
      decomposition is idempotent, decomposing a lower-case character yields lower-case
      characters, and the space character is untouched by all three tables. */
  ghost predicate Lawful(t: Tables) {
    && (forall c, i | 0 <= i < |t.lower(c)| :: t.lower(t.lower(c)[i]) == [t.lower(c)[i]])
    && (forall c, i | 0 <= i < |t.decompose(c)| :: t.decompose(t.decompose(c)[i]) == [t.decompose(c)[i]])
    && (forall c, i | t.lower(c) == [c] && 0 <= i < |t.decompose(c)| ::
          t.lower(t.decompose(c)[i]) == [t.decompose(c)[i]])
    && Canonical(t, ' ')
  }

  // ---------------------------------------------------------------------------
  // str.strip()
  // ---------------------------------------------------------------------------

  /** No whitespace at either end. */
  predicate NoEdgeSpace(s: string) {
    s == [] || (!IsSpace(s[0]) && !IsSpace(s[|s| - 1]))
  }

  /** The number of whitespace characters at the front of `s`. */
  function LeadingSpaces(s: string): (n: nat)
    ensures n <= |s|
    ensures forall i :: 0 <= i < n ==> IsSpace(s[i])
    ensures n == |s| || !IsSpace(s[n])
  {
    if s == [] || !IsSpace(s[0]) then 0 else 1 + LeadingSpaces(s[1..])
  }

  /** The number of whitespace characters at the end of `s`. */
  function TrailingSpaces(s: string): (n: nat)
    ensures n <= |s|
    ensures forall i :: |s| - n <= i < |s| ==> IsSpace(s[i])
    ensures n == |s| || !IsSpace(s[|s| - n - 1])
  {
    if s == [] || !IsSpace(s[|s| - 1]) then 0 else 1 + TrailingSpaces(s[..|s| - 1])
  }

  function StripLeft(s: string): (r: string)
    ensures |r| <= |s| && r == s[|s| - |r|..]
    ensures r == [] || !IsSpace(r[0])
    ensures forall i :: 0 <= i < |s| - |r| ==> IsSpace(s[i])
  {
    s[LeadingSpaces(s)..]
  }

  function StripRight(s: string): (r: string)
    ensures |r| <= |s| && r == s[..|r|]
    ensures r == [] || !IsSpace(r[|r| - 1])
    ensures forall i :: |r| <= i < |s| ==> IsSpace(s[i])
  {
    s[..|s| - TrailingSpaces(s)]
  }

  /** `str.strip()`: whitespace is removed from both ends (see `StripLeft` and
      `StripRight`); only an all-whitespace string strips to empty, and an already
      stripped string is kept. */
  function Strip(s: string): (r: string)
    ensures NoEdgeSpace(r)
    ensures r == [] <==> forall i :: 0 <= i < |s| ==> IsSpace(s[i])
    ensures NoEdgeSpace(s) ==> r == s
    ensures exists a, b :: 0 <= a <= b <= |s| && r == s[a..b] && StrippedAt(s, a, b)
  {
    var r := StripRight(StripLeft(s));
    StripInfix(s, StripLeft(s), r);
    StripEdges(s);
    StripEmpty(s);
    StripKeeps(s);
    r
  }

  /** `s[a..b]` is what is left after removing whitespace before `a` and from `b` on. */
  predicate StrippedAt(s: string, a: nat, b: nat)
    requires a <= b <= |s|
  {
    (forall i :: 0 <= i < a ==> IsSpace(s[i])) && (forall i :: b <= i < |s| ==> IsSpace(s[i]))
  }

  lemma StripInfix(s: string, l: string, r: string)
    requires l == StripLeft(s) && r == StripRight(l)
    ensures |s| - |l| + |r| <= |s| && r == s[|s| - |l|..|s| - |l| + |r|]
    ensures StrippedAt(s, |s| - |l|, |s| - |l| + |r|)
  {
    InfixOfSuffix(s, l, r);
    SpacesAfterInfix(s, l, r);
  }

  lemma InfixOfSuffix(s: string, l: string, r: string)
    requires |l| <= |s| && l == s[|s| - |l|..]
    requires |r| <= |l| && r == l[..|r|]
    ensures r == s[|s| - |l|..|s| - |l| + |r|]
  {
  }

  lemma SpacesAfterInfix(s: string, l: string, r: string)
    requires |l| <= |s| && l == s[|s| - |l|..]
    requires |r| <= |l| && forall i :: |r| <= i < |l| ==> IsSpace(l[i])
    ensures forall i :: |s| - |l| + |r| <= i < |s| ==> IsSpace(s[i])
  {
    var a := |s| - |l|;
    forall i | a + |r| <= i < |s| ensures IsSpace(s[i]) {
      assert s[i] == l[i - a];
    }
  }

  lemma StripEdges(s: string)
    ensures NoEdgeSpace(StripRight(StripLeft(s)))
  {
    var l := StripLeft(s);
    var r := StripRight(l);
    if r != [] {
      assert r[0] == l[0];
    }
  }

  lemma StripEmpty(s: string)
    ensures StripRight(StripLeft(s)) == [] <==> forall i :: 0 <= i < |s| ==> IsSpace(s[i])
  {
    var l := StripLeft(s);
    var r := StripRight(l);
    var d := |s| - |l|;
    if l != [] {
      assert s[d] == l[0];
    }
  }

  lemma StripKeeps(s: string)
    ensures NoEdgeSpace(s) ==> StripRight(StripLeft(s)) == s
  {
    if s != [] && NoEdgeSpace(s) {
      var l := StripLeft(s);
      assert |l| == |s|;
      assert l == s;
    }
  }

  // ---------------------------------------------------------------------------
  // str.lower(), unicodedata.normalize("NFD", ·), dropping category Mn
  // ---------------------------------------------------------------------------

  /** `str.lower()`, one character at a time. */
  function LowerAll(t: Tables, s: string): (r: string)
    ensures (forall i :: 0 <= i < |s| ==> t.lower(s[i]) == [s[i]]) ==> r == s
  {
    if s == [] then [] else t.lower(s[0]) + LowerAll(t, s[1..])
  }

  /** Canonical decomposition, one character at a time. */
  function DecomposeAll(t: Tables, s: string): (r: string)
    ensures (forall i :: 0 <= i < |s| ==> t.decompose(s[i]) == [s[i]]) ==> r == s
  {
    if s == [] then [] else t.decompose(s[0]) + DecomposeAll(t, s[1..])
  }

  /** Keeps, in order, the characters that are not non-spacing marks. */
  function DropMarks(t: Tables, s: string): (r: string)
    ensures forall i :: 0 <= i < |r| ==> !t.isMark(r[i]) && r[i] in s
    ensures (forall i :: 0 <= i < |s| ==> !t.isMark(s[i])) ==> r == s
    ensures |s| == 1 ==> r == if t.isMark(s[0]) then [] else s
  {
    if s == [] then []
    else if t.isMark(s[0]) then DropMarks(t, s[1..])
    else [s[0]] + DropMarks(t, s[1..])
  }

  /** Marks are dropped one character at a time: together with the one-character case
      of `DropMarks`, every non-mark is kept, in order. */
  lemma {:induction false} DropMarksAppend(t: Tables, a: string, b: string)
    ensures DropMarks(t, a + b) == DropMarks(t, a) + DropMarks(t, b)
    decreases |a|
  {
    if a == [] {
      assert a + b == b;
    } else {
      assert (a + b)[0] == a[0] && (a + b)[1..] == a[1..] + b;
      DropMarksAppend(t, a[1..], b);
    }
  }

  // ---------------------------------------------------------------------------
  // " ".join(s.split())
  // ---------------------------------------------------------------------------

  /** A word produced by `str.split()`: non-empty and free of whitespace. */
  predicate IsWord(w: string) {
    w != [] && forall i :: 0 <= i < |w| ==> !IsSpace(w[i])
  }

  /** Length of the run of non-whitespace characters at the front of `s`. */
  function WordEnd(s: string): (n: nat)
    ensures n <= |s|
    ensures forall i :: 0 <= i < n ==> !IsSpace(s[i])
    ensures n == |s| || IsSpace(s[n])
  {
    if s == [] || IsSpace(s[0]) then 0 else 1 + WordEnd(s[1..])
  }

  /** `str.split()` with no separator: the maximal runs of non-whitespace, in order. */
  function Split(s: string): (ws: seq<string>)
    ensures forall k :: 0 <= k < |ws| ==> IsWord(ws[k])
    decreases |s|
  {
    if s == [] then []
    else if IsSpace(s[0]) then Split(s[1..])
    else
      var n := WordEnd(s);
      [s[..n]] + Split(s[n..])
  }

  /** The pieces hold only characters of `s`, and there is one when `s` is not all
      whitespace. */
  lemma {:induction false} SplitChars(s: string)
    ensures forall k, i :: 0 <= k < |Split(s)| && 0 <= i < |Split(s)[k]| ==> Split(s)[k][i] in s
    ensures (exists i :: 0 <= i < |s| && !IsSpace(s[i])) ==> Split(s) != []
    decreases |s|
  {
    if s == [] {
    } else if IsSpace(s[0]) {
      SplitChars(s[1..]);
      assert forall i :: 0 < i < |s| ==> s[i] == s[1..][i - 1];
    } else {
      var n := WordEnd(s);
      var ws := Split(s);
      SplitChars(s[n..]);
      assert ws == [s[..n]] + Split(s[n..]);
      forall k, i | 0 <= k < |ws| && 0 <= i < |ws[k]| ensures ws[k][i] in s {
        if k == 0 {
          assert ws[k][i] == s[i];
        } else {
          assert ws[k] == Split(s[n..])[k - 1];
          assert ws[k][i] in s[n..];
        }
      }
    }
  }

  /** `" ".join(ws)`. */
  function Join(ws: seq<string>): string {
    if ws == [] then []
    else if |ws| == 1 then ws[0]
    else ws[0] + " " + Join(ws[1..])
  }

  /** Every character of the joined text is a space or a character of a piece. */
  lemma {:induction false} JoinChars(ws: seq<string>)
    ensures forall i :: 0 <= i < |Join(ws)| ==> Join(ws)[i] == ' ' || exists k :: 0 <= k < |ws| && Join(ws)[i] in ws[k]
  {
    if |ws| > 1 {
      JoinChars(ws[1..]);
      var j := Join(ws[1..]);
      var r := Join(ws);
      assert r == ws[0] + " " + j;
      forall i | 0 <= i < |r| ensures r[i] == ' ' || exists k :: 0 <= k < |ws| && r[i] in ws[k] {
        if i < |ws[0]| {
          assert r[i] == ws[0][i];
        } else if i > |ws[0]| {
          assert r[i] == j[i - |ws[0]| - 1];
          if j[i - |ws[0]| - 1] != ' ' {
            var k :| 0 <= k < |ws[1..]| && j[i - |ws[0]| - 1] in ws[1..][k];
            assert ws[1..][k] == ws[k + 1];
          }
        }
      }
    }
  }

  /** Whitespace appears only as single spaces strictly inside the string. */
  predicate Collapsed(s: string) {
    && (forall i :: 0 <= i < |s| && IsSpace(s[i]) ==> s[i] == ' ' && 0 < i < |s| - 1)
    && (forall i, j :: 0 <= i < |s| && 0 <= j < |s| && j == i + 1 ==> !(IsSpace(s[i]) && IsSpace(s[j])))
  }

  lemma {:induction false} JoinCollapsed(ws: seq<string>)
    requires forall k :: 0 <= k < |ws| ==> IsWord(ws[k])
    ensures Collapsed(Join(ws)) && NoEdgeSpace(Join(ws))
    ensures ws != [] ==> Join(ws) != []
  {
    if |ws| > 1 {
      JoinCollapsed(ws[1..]);
      var j := Join(ws[1..]);
      var r := Join(ws);
      assert r == ws[0] + " " + j;
      assert forall i :: 0 <= i < |ws[0]| ==> r[i] == ws[0][i];
      assert forall i :: |ws[0]| < i < |r| ==> r[i] == j[i - |ws[0]| - 1];
    }
  }

  /** Splitting a joined list of words gives the words back. */
  lemma {:induction false} SplitJoin(ws: seq<string>)
    requires forall k :: 0 <= k < |ws| ==> IsWord(ws[k])
    ensures Split(Join(ws)) == ws
  {
    if |ws| == 1 {
      SplitWord(ws[0]);
    } else if |ws| > 1 {
      assert Join(ws) == ws[0] + " " + Join(ws[1..]);
      SplitWordThen(ws[0], Join(ws[1..]));
      SplitJoin(ws[1..]);
    }
  }

  /** A word splits into itself. */
  lemma SplitWord(w: string)
    requires IsWord(w)
    ensures Split(w) == [w]
  {
    WordEndAll(w);
    assert w[..|w|] == w && w[|w|..] == [];
    assert Split(w) == [w] + Split([]);
  }

  /** A word followed by a space splits off as the first piece. */
  lemma SplitWordThen(w: string, rest: string)
    requires IsWord(w)
    ensures Split(w + " " + rest) == [w] + Split(rest)
  {
    var s := w + " " + rest;
    assert forall i :: 0 <= i < |w| ==> s[i] == w[i];
    WordEndAt(s, |w|);
    assert s[..|w|] == w;
    assert s[|w|..] == " " + rest;
    SplitSpace(rest);
    assert Split(s) == [w] + Split(s[|w|..]);
  }

  /** A leading space does not change the split. */
  lemma SplitSpace(rest: string)
    ensures Split(" " + rest) == Split(rest)
  {
    assert (" " + rest)[1..] == rest;
  }

  /** `WordEnd` runs to the end of a string with no whitespace. */
  lemma {:induction false} WordEndAll(s: string)
    requires forall i :: 0 <= i < |s| ==> !IsSpace(s[i])
    ensures WordEnd(s) == |s|
  {
    if s != [] {
      WordEndAll(s[1..]);
    }
  }

  /** `WordEnd` stops exactly at the first whitespace. */
  lemma {:induction false} WordEndAt(s: string, n: nat)
    requires n < |s| && IsSpace(s[n])
    requires forall i :: 0 <= i < n ==> !IsSpace(s[i])
    ensures WordEnd(s) == n
  {
    if n > 0 {
      WordEndAt(s[1..], n - 1);
    }
  }

  /** Words end at whitespace: a whitespace character splits the text into the words
      before it and the words after it. */
  lemma {:induction false} SplitOverSpace(a: string, c: char, b: string)
    requires IsSpace(c)
    ensures Split(a + [c] + b) == Split(a) + Split(b)
    decreases |a|
  {
    var s := a + [c] + b;
    if a == [] {
      assert s[1..] == b;
    } else if IsSpace(a[0]) {
      assert s[1..] == a[1..] + [c] + b;
      SplitOverSpace(a[1..], c, b);
    } else {
      var n := WordEnd(a);
      assert forall i :: 0 <= i < |a| ==> s[i] == a[i];
      WordEndAt(s, n);
      assert s[..n] == a[..n];
      assert s[n..] == a[n..] + [c] + b;
      SplitOverSpace(a[n..], c, b);
    }
  }

  /** Text made of whitespace only has no words. */
  lemma {:induction false} SplitBlank(s: string)
    requires forall i :: 0 <= i < |s| ==> IsSpace(s[i])
    ensures Split(s) == []
    decreases |s|
  {
    if s != [] {
      SplitBlank(s[1..]);
    }
  }

  /** `" ".join(s.split())`. */
  function Collapse(s: string): (r: string)
    ensures Collapsed(r) && NoEdgeSpace(r)
    ensures forall i :: 0 <= i < |r| ==> r[i] == ' ' || r[i] in s
    ensures (exists i :: 0 <= i < |s| && !IsSpace(s[i])) ==> r != []
  {
    var ws := Split(s);
    JoinCollapsed(ws);
    SplitChars(s);
    JoinChars(ws);
    var r := Join(ws);
    forall i | 0 <= i < |r| && r[i] != ' ' ensures r[i] in s {
      var k :| 0 <= k < |ws| && r[i] in ws[k];
      var j :| 0 <= j < |ws[k]| && ws[k][j] == r[i];
    }
    r
  }

  /** A single word collapses to itself. */
  lemma CollapseWord(w: string)
    requires IsWord(w)
    ensures Collapse(w) == w
  {
    SplitJoin([w]);
  }

  /** Collapsing a collapsed string changes nothing. */
  lemma CollapseIdempotent(s: string)
    ensures Collapse(Collapse(s)) == Collapse(s)
  {
    SplitJoin(Split(s));
  }

  /** The characters of `s` that are not whitespace, in order. */
  function NonSpace(s: string): string {
    if s == [] then [] else (if IsSpace(s[0]) then [] else [s[0]]) + NonSpace(s[1..])
  }

  /** The pieces laid end to end. */
  function Concat(ws: seq<string>): string {
    if ws == [] then [] else ws[0] + Concat(ws[1..])
  }

  lemma {:induction false} NonSpaceAppend(a: string, b: string)
    ensures NonSpace(a + b) == NonSpace(a) + NonSpace(b)
    decreases |a|
  {
    if a == [] {
      assert a + b == b;
    } else {
      assert (a + b)[0] == a[0] && (a + b)[1..] == a[1..] + b;
      NonSpaceAppend(a[1..], b);
    }
  }

  lemma {:induction false} NonSpaceWord(w: string)
    requires forall i :: 0 <= i < |w| ==> !IsSpace(w[i])
    ensures NonSpace(w) == w
    decreases |w|
  {
    if w != [] {
      NonSpaceWord(w[1..]);
    }
  }

  /** `str.split()` loses no character but whitespace: the pieces, laid end to end, are the
      non-whitespace characters of `s` in order. */
  lemma {:induction false} SplitKeepsText(s: string)
    ensures Concat(Split(s)) == NonSpace(s)
    decreases |s|
  {
    if s == [] {
    } else if IsSpace(s[0]) {
      SplitKeepsText(s[1..]);
    } else {
      var n := WordEnd(s);
      SplitKeepsText(s[n..]);
      assert s == s[..n] + s[n..];
      NonSpaceAppend(s[..n], s[n..]);
      NonSpaceWord(s[..n]);
      assert Split(s) == [s[..n]] + Split(s[n..]);
    }
  }

  /** Joining words with single spaces adds nothing but whitespace. */
  lemma {:induction false} JoinKeepsText(ws: seq<string>)
    requires forall k :: 0 <= k < |ws| ==> IsWord(ws[k])
    ensures NonSpace(Join(ws)) == Concat(ws)
  {
    if |ws| == 1 {
      NonSpaceWord(ws[0]);
      assert Concat(ws) == ws[0] + Concat([]);
    } else if |ws| > 1 {
      JoinKeepsText(ws[1..]);
      NonSpaceWord(ws[0]);
      NonSpaceAppend(ws[0], " " + Join(ws[1..]));
      NonSpaceAppend(" ", Join(ws[1..]));
      assert ws[0] + " " + Join(ws[1..]) == ws[0] + (" " + Join(ws[1..]));
    }
  }

  /** `" ".join(s.split())` keeps every word of `s`: the non-whitespace text is unchanged,
      and splitting again gives the same words. */
  lemma CollapseKeepsWords(s: string)
    ensures NonSpace(Collapse(s)) == NonSpace(s)
    ensures Split(Collapse(s)) == Split(s)
  {
    SplitJoin(Split(s));
    JoinKeepsText(Split(s));
    SplitKeepsText(s);
  }

  // ---------------------------------------------------------------------------
  // norm_str
  // ---------------------------------------------------------------------------

  /** `norm_str(s)`. `None` is Python's `None`; any other argument is given as the text
      `str(s)` produces for it. */
  function NormStr(t: Tables, s: Option<string>): (r: string)
    ensures s.None? ==> r == []
    ensures Collapsed(r) && NoEdgeSpace(r)
  {
    match s
    case None => []
    case Some(x) => Collapse(DropMarks(t, DecomposeAll(t, LowerAll(t, Strip(x)))))
  }

  /** Every character left after lower-casing, decomposing and dropping marks is canonical. */
  lemma {:induction false} FoldedCanonical(t: Tables, s: string)
    requires Lawful(t)
    ensures forall i :: 0 <= i < |DropMarks(t, DecomposeAll(t, LowerAll(t, s)))| ==>
              Canonical(t, DropMarks(t, DecomposeAll(t, LowerAll(t, s)))[i])
  {
    var d := DecomposeAll(t, LowerAll(t, s));
    LowerIsLower(t, s);
    DecomposedOfLower(t, LowerAll(t, s));
    var r := DropMarks(t, d);
    forall i | 0 <= i < |r| ensures Canonical(t, r[i]) {
      assert r[i] in d;
    }
  }

  lemma {:induction false} LowerIsLower(t: Tables, s: string)
    requires Lawful(t)
    ensures forall i :: 0 <= i < |LowerAll(t, s)| ==> t.lower(LowerAll(t, s)[i]) == [LowerAll(t, s)[i]]
  {
    if s != [] {
      LowerIsLower(t, s[1..]);
      var h := t.lower(s[0]);
      var r := LowerAll(t, s);
      assert r == h + LowerAll(t, s[1..]);
      forall i | 0 <= i < |r| ensures t.lower(r[i]) == [r[i]] {
        if i < |h| {
          assert r[i] == h[i];
        } else {
          assert r[i] == LowerAll(t, s[1..])[i - |h|];
        }
      }
    }
  }

  lemma {:induction false} DecomposedOfLower(t: Tables, s: string)
    requires Lawful(t)
    requires forall i :: 0 <= i < |s| ==> t.lower(s[i]) == [s[i]]
    ensures forall i :: 0 <= i < |DecomposeAll(t, s)| ==>
              t.lower(DecomposeAll(t, s)[i]) == [DecomposeAll(t, s)[i]]
              && t.decompose(DecomposeAll(t, s)[i]) == [DecomposeAll(t, s)[i]]
  {
    if s != [] {
      DecomposedOfLower(t, s[1..]);
      var h := t.decompose(s[0]);
      var r := DecomposeAll(t, s);
      assert r == h + DecomposeAll(t, s[1..]);
      forall i | 0 <= i < |r|
        ensures t.lower(r[i]) == [r[i]] && t.decompose(r[i]) == [r[i]]
      {
        if i < |h| {
          assert r[i] == h[i];
        } else {
          assert r[i] == DecomposeAll(t, s[1..])[i - |h|];
        }
      }
    }
  }

  /** The normalised key consists of canonical characters only: it is lower-case, fully
      decomposed and free of non-spacing marks. */
  lemma NormStrCanonical(t: Tables, s: Option<string>)
    requires Lawful(t)
    ensures forall i :: 0 <= i < |NormStr(t, s)| ==> Canonical(t, NormStr(t, s)[i])
  {
    if s.Some? {
      FoldedCanonical(t, Strip(s.value));
    }
  }

  /** A string made of canonical characters, with no whitespace at the ends and no
      whitespace run other than single spaces, is its own key. */
  lemma NormStrFixedPoint(t: Tables, s: string)
    requires forall i :: 0 <= i < |s| ==> Canonical(t, s[i])
    requires Collapsed(s) && NoEdgeSpace(s)
    ensures NormStr(t, Some(s)) == s
  {
    assert Strip(s) == s;
    FoldFixedPoint(t, s);
    CollapseFixedPoint(s);
  }

  /** Lower-casing, decomposing and dropping marks leave canonical characters alone. */
  lemma FoldFixedPoint(t: Tables, s: string)
    requires forall i :: 0 <= i < |s| ==> Canonical(t, s[i])
    ensures DropMarks(t, DecomposeAll(t, LowerAll(t, s))) == s
  {
    assert forall i :: 0 <= i < |s| ==> t.lower(s[i]) == [s[i]];
    assert LowerAll(t, s) == s;
    assert forall i :: 0 <= i < |s| ==> t.decompose(s[i]) == [s[i]];
    assert DecomposeAll(t, s) == s;
    assert forall i :: 0 <= i < |s| ==> !t.isMark(s[i]);
  }

  /** A collapsed string with no whitespace at its ends collapses to itself. */
  lemma {:induction false} CollapseFixedPoint(s: string)
    requires Collapsed(s) && NoEdgeSpace(s)
    ensures Collapse(s) == s
    decreases |s|
  {
    if s != [] {
      var n := WordEnd(s);
      if n == |s| {
        CollapseWord(s);
      } else {
        var w, rest := s[..n], s[n + 1..];
        CollapsedTail(s, n);
        CollapseFixedPoint(rest);
        assert Join(Split(rest)) == rest;
        SplitAfterWord(s, n);
        JoinCons(w, Split(rest));
        calc {
          Collapse(s);
          Join(Split(s));
          Join([w] + Split(rest));
          w + " " + rest;
          { Reassemble(s, n); }
          s;
        }
      }
    }
  }

  /** What follows the single space after the first word of a collapsed string is collapsed. */
  lemma CollapsedTail(s: string, n: nat)
    requires Collapsed(s) && NoEdgeSpace(s)
    requires s != [] && n == WordEnd(s) < |s|
    ensures n + 1 < |s| && s[n] == ' '
    ensures Collapsed(s[n + 1..]) && NoEdgeSpace(s[n + 1..]) && s[n + 1..] != []
  {
    var rest := s[n + 1..];
    forall i | 0 <= i < |rest| && IsSpace(rest[i])
      ensures rest[i] == ' ' && 0 < i < |rest| - 1 && !IsSpace(rest[i + 1])
    {
      assert rest[i] == s[n + 1 + i];
    }
  }

  /** Splitting at the single space that ends the first word. */
  lemma SplitAfterWord(s: string, n: nat)
    requires s != [] && !IsSpace(s[0]) && n == WordEnd(s) && n + 1 < |s| && s[n] == ' '
    requires !IsSpace(s[n + 1])
    ensures Split(s) == [s[..n]] + Split(s[n + 1..]) && Split(s[n + 1..]) != []
  {
    assert s[n..][1..] == s[n + 1..];
    assert Split(s[n..]) == Split(s[n + 1..]);
  }

  lemma Reassemble(s: string, n: nat)
    requires n < |s| && s[n] == ' '
    ensures s[..n] + " " + s[n + 1..] == s
  {
    assert s[n..] == [s[n]] + s[n + 1..];
    assert s == s[..n] + s[n..];
  }

  lemma JoinCons(w: string, tail: seq<string>)
    requires tail != []
    ensures Join([w] + tail) == w + " " + Join(tail)
  {
    assert ([w] + tail)[1..] == tail;
  }

  /** Normalising a normalised key gives it back unchanged. */
  lemma NormStrIdempotent(t: Tables, s: Option<string>)
    requires Lawful(t)
    ensures NormStr(t, Some(NormStr(t, s))) == NormStr(t, s)
  {
    NormStrCanonical(t, s);
    NormStrFixedPoint(t, NormStr(t, s));
  }
}
