/** A concrete, partial instance of the Unicode tables: lower-casing, canonical
    decomposition and the non-spacing-mark class restricted to Basic Latin, Latin-1
    Supplement and the Combining Diacritical Marks block (every other character is left
    alone). It shows that the laws in `Text.Lawful` can be met, and lets the normaliser
    be run on the region names of the dashboard by hand. */
module Latin1 {
  import opened Wrappers
  import opened Text

  predicate IsUpper(c: char) {
    ('A' <= c <= 'Z') || ('\U{C0}' <= c <= '\U{DE}' && c != '\U{D7}')
  }

  /** Lower-case mapping of A-Z and of the Latin-1 capitals (the lower-case letter is 0x20 above). */
  function Lower(c: char): (r: seq<char>)
    ensures IsUpper(c) ==> |r| == 1 && !IsUpper(r[0]) && r[0] as int == c as int + 0x20
    ensures !IsUpper(c) ==> r == [c]
  {
    if IsUpper(c) then [(c as int + 0x20) as char] else [c]
  }

  /** The combining mark of a decomposable Latin-1 capital, by code point (0 when none). */
  function MarkOf(u: int): int {
    match u
    case 0xC0 => 0x300 case 0xC1 => 0x301 case 0xC2 => 0x302 case 0xC3 => 0x303
    case 0xC4 => 0x308 case 0xC5 => 0x30A case 0xC7 => 0x327
    case 0xC8 => 0x300 case 0xC9 => 0x301 case 0xCA => 0x302 case 0xCB => 0x308
    case 0xCC => 0x300 case 0xCD => 0x301 case 0xCE => 0x302 case 0xCF => 0x308
    case 0xD1 => 0x303
    case 0xD2 => 0x300 case 0xD3 => 0x301 case 0xD4 => 0x302 case 0xD5 => 0x303 case 0xD6 => 0x308
    case 0xD9 => 0x300 case 0xDA => 0x301 case 0xDB => 0x302 case 0xDC => 0x308
    case 0xDD => 0x301
    case _ => 0
  }

  /** The base letter of a decomposable Latin-1 capital, by code point. */
  function BaseOf(u: int): char {
    if u <= 0xC5 then 'A'
    else if u == 0xC7 then 'C'
    else if u <= 0xCB then 'E'
    else if u <= 0xCF then 'I'
    else if u == 0xD1 then 'N'
    else if u <= 0xD6 then 'O'
    else if u <= 0xDC then 'U'
    else 'Y'
  }

  /** Canonical decomposition of the precomposed Latin-1 letters into base letter and mark. */
  function Decompose(c: char): (r: seq<char>)
    ensures |r| == 1 || |r| == 2
    ensures |r| == 2 ==> ('A' <= r[0] <= 'Z' || 'a' <= r[0] <= 'z') && '\U{300}' <= r[1] <= '\U{36F}'
    ensures |r| == 2 ==> (IsUpper(c) <==> 'A' <= r[0] <= 'Z')
    ensures |r| == 1 ==> r == [c]
  {
    var x := c as int;
    if x == 0xFF then ['y', '\U{308}']
    else if 0xC0 <= x <= 0xFD then
      var u := if x >= 0xE0 then x - 0x20 else x;
      var m := MarkOf(u);
      if m == 0 then [c]
      else [(BaseOf(u) as int + (x - u)) as char, m as char]
    else [c]
  }

  /** The Combining Diacritical Marks block, all of whose characters are in category Mn. */
  predicate IsMark(c: char) {
    '\U{300}' <= c <= '\U{36F}'
  }

  const LatinTables: Text.Tables := Text.Tables(Lower, Decompose, IsMark)

  /** The Latin-1 tables obey the laws the normaliser relies on. */
  lemma TablesLawful()
    ensures Lawful(LatinTables)
  {
    forall c, i | 0 <= i < |Lower(c)|
      ensures Lower(Lower(c)[i]) == [Lower(c)[i]]
    {
      LowerLawful(c);
    }
    forall c, i | 0 <= i < |Decompose(c)|
      ensures Decompose(Decompose(c)[i]) == [Decompose(c)[i]]
    {
      DecomposeLawful(c, i);
    }
    forall c, i | Lower(c) == [c] && 0 <= i < |Decompose(c)|
      ensures Lower(Decompose(c)[i]) == [Decompose(c)[i]]
    {
      DecomposeLowerLawful(c, i);
    }
  }

  lemma LowerLawful(c: char)
    ensures |Lower(c)| == 1 && Lower(Lower(c)[0]) == [Lower(c)[0]]
  {
  }

  /** Characters outside the precomposed Latin-1 range do not decompose. */
  lemma PlainDecompose(d: char)
    requires d < '\U{C0}' || '\U{FF}' < d
    ensures Decompose(d) == [d]
  {
  }

  lemma DecomposeLawful(c: char, i: nat)
    requires i < |Decompose(c)|
    ensures Decompose(Decompose(c)[i]) == [Decompose(c)[i]]
  {
    var r := Decompose(c);
    if |r| == 2 {
      PlainDecompose(r[i]);
    }
  }

  lemma DecomposeLowerLawful(c: char, i: nat)
    requires Lower(c) == [c] && i < |Decompose(c)|
    ensures Lower(Decompose(c)[i]) == [Decompose(c)[i]]
  {
    var r := Decompose(c);
    if |r| == 2 {
      assert !IsUpper(c);
      assert !IsUpper(r[i]);
    }
  }

  /** Accents and case do not change the key: the accented capital in "Île" folds to
      the plain lower-case letter, and "Île" and "ile" share the key "ile". */
  lemma AccentAndCaseFold()
    ensures NormStr(LatinTables, Some("\U{CE}le")) == "ile"
    ensures NormStr(LatinTables, Some("ile")) == "ile"
  {
    AccentedKey();
    PlainIle();
  }

  lemma AccentedKey()
    ensures NormStr(LatinTables, Some("\U{CE}le")) == "ile"
  {
    assert WordChars("ile");
    IleFolds();
    KeyOfWord(LatinTables, "\U{CE}le", "ile");
  }

  lemma PlainIle()
    ensures NormStr(LatinTables, Some("ile")) == "ile"
  {
    assert WordChars("ile");
    WordsPlain("ile");
    PlainKey("ile");
  }

  /** Text that folds to a plain word has that word as its key. */
  lemma KeyOfWord(t: Tables, x: string, w: string)
    requires DropMarks(t, DecomposeAll(t, LowerAll(t, Strip(x)))) == w
    requires w != [] && WordChars(w)
    ensures NormStr(t, Some(x)) == w
  {
    forall i | 0 <= i < |w| ensures !IsSpace(w[i]) {
      WordCharsAt(w, i);
    }
    CollapseWord(w);
  }

  /** Strip, lower-case, decompose and drop marks on "Île". */
  lemma IleFolds()
    ensures DropMarks(LatinTables, DecomposeAll(LatinTables, LowerAll(LatinTables, Strip("\U{CE}le")))) == "ile"
  {
    IleLowers();
    IleDecomposes();
  }

  lemma IleStripped()
    ensures Strip("\U{CE}le") == "\U{CE}le"
  {
  }

  lemma IleLowers()
    ensures LowerAll(LatinTables, Strip("\U{CE}le")) == "\U{EE}le"
  {
    var t := LatinTables;
    IleStripped();
    assert t.lower == Lower;
    assert ('\U{CE}' as int + 0x20) as char == '\U{EE}';
    assert Lower('\U{CE}') == ['\U{EE}'];
    assert Lower('l') == ['l'] && Lower('e') == ['e'];
    assert LowerAll(t, "") == "";
    assert LowerAll(t, "e") == "e";
    assert LowerAll(t, "le") == "le";
    assert LowerAll(t, "\U{CE}le") == "\U{EE}le";
  }

  lemma IleDecomposes()
    ensures DropMarks(LatinTables, DecomposeAll(LatinTables, "\U{EE}le")) == "ile"
  {
    IleSplitsAccent();
    IleDropsAccent();
  }

  lemma IleSplitsAccent()
    ensures DecomposeAll(LatinTables, "\U{EE}le") == "i\U{302}le"
  {
    var t := LatinTables;
    assert t.decompose == Decompose;
    assert MarkOf(0xCE) == 0x302 && BaseOf(0xCE) == 'I';
    assert Decompose('\U{EE}') == ['i', '\U{302}'];
    PlainDecompose('l');
    PlainDecompose('e');
    assert DecomposeAll(t, "") == "";
    assert DecomposeAll(t, "e") == "e";
    assert DecomposeAll(t, "le") == "le";
  }

  lemma IleDropsAccent()
    ensures DropMarks(LatinTables, "i\U{302}le") == "ile"
  {
    var t := LatinTables;
    assert t.isMark == IsMark;
    assert !IsMark('i') && IsMark('\U{302}') && !IsMark('l') && !IsMark('e');
    assert DropMarks(t, "") == "";
    assert DropMarks(t, "e") == "e";
    assert DropMarks(t, "le") == "le";
    assert DropMarks(t, "\U{302}le") == "le";
  }

  /** Hyphens are not whitespace: words joined by hyphens and the same words joined by
      single spaces are each their own key, and the two keys differ. */
  lemma HyphenKept(u: string, v: string, w: string)
    requires u != [] && v != [] && w != [] && WordChars(u) && WordChars(v) && WordChars(w)
    ensures NormStr(LatinTables, Some(u + "-" + v + "-" + w)) == u + "-" + v + "-" + w
    ensures NormStr(LatinTables, Some(u + " " + v + " " + w)) == u + " " + v + " " + w
    ensures u + "-" + v + "-" + w != u + " " + v + " " + w
  {
    JoinedPlain(u, '-', v, w);
    PlainKey(u + "-" + v + "-" + w);
    JoinedPlain(u, ' ', v, w);
    PlainKey(u + " " + v + " " + w);
    assert (u + "-" + v + "-" + w)[|u|] == '-';
    assert (u + " " + v + " " + w)[|u|] == ' ';
  }

  /** Three words joined by a word character or by a space are plain text. */
  lemma JoinedPlain(u: string, c: char, v: string, w: string)
    requires u != [] && v != [] && w != [] && WordChars(u) && WordChars(v) && WordChars(w)
    requires WordChar(c) || c == ' '
    ensures Plain(u + [c] + v + [c] + w)
  {
    WordsPlain(u);
    WordsPlain(v);
    WordsPlain(w);
    WordCharsAt(u, |u| - 1);
    WordCharsAt(v, 0);
    WordCharsAt(v, |v| - 1);
    WordCharsAt(w, 0);
    PlainJoin(u, c, v);
    PlainJoin(u + [c] + v, c, w);
  }

  /** The region name of the example: "ile-de-france" and "ile de france" keep two
      different keys. */
  lemma IleDeFranceKeys()
    ensures NormStr(LatinTables, Some("ile-de-france")) == "ile-de-france"
    ensures NormStr(LatinTables, Some("ile de france")) == "ile de france"
  {
    IleDeFranceSpelling();
    assert WordChars("ile") && WordChars("de") && WordChars("france");
    HyphenKept("ile", "de", "france");
  }

  lemma IleDeFranceSpelling()
    ensures "ile" + "-" + "de" + "-" + "france" == "ile-de-france"
    ensures "ile" + " " + "de" + " " + "france" == "ile de france"
  {
  }

  /** A lower-case ASCII letter or a hyphen. */
  predicate WordChar(c: char) {
    'a' <= c <= 'z' || c == '-'
  }

  /** Every character is a word character (checked one character at a time, so that it
      can be evaluated on a literal). */
  predicate WordChars(s: string) {
    s == [] || (WordChar(s[0]) && WordChars(s[1..]))
  }

  lemma {:induction false} WordCharsAt(s: string, i: nat)
    requires WordChars(s) && i < |s|
    ensures WordChar(s[i])
    decreases i
  {
    if i > 0 {
      WordCharsAt(s[1..], i - 1);
    }
  }

  /** Words of word characters separated by single spaces. */
  predicate Plain(s: string) {
    forall i :: 0 <= i < |s| ==> PlainAt(s, i)
  }

  /** The character at `i` is a word character, or a space between two of them. */
  predicate PlainAt(s: string, i: nat)
    requires i < |s|
  {
    WordChar(s[i]) || (s[i] == ' ' && 0 < i < |s| - 1 && WordChar(s[i - 1]) && WordChar(s[i + 1]))
  }

  lemma WordsPlain(s: string)
    requires WordChars(s)
    ensures Plain(s)
  {
    forall i | 0 <= i < |s| ensures PlainAt(s, i) {
      WordCharsAt(s, i);
    }
  }

  /** Joining two plain texts that end and start with word characters, by a word character
      or a space, gives plain text. */
  lemma PlainJoin(a: string, c: char, b: string)
    requires Plain(a) && Plain(b) && a != [] && b != []
    requires WordChar(a[|a| - 1]) && WordChar(b[0]) && (WordChar(c) || c == ' ')
    ensures Plain(a + [c] + b)
    ensures (a + [c] + b)[0] == a[0] && (a + [c] + b)[|a| + |b|] == b[|b| - 1]
  {
    var s := a + [c] + b;
    forall i | 0 <= i < |s| ensures PlainAt(s, i) {
      if i < |a| {
        PlainJoinLeft(a, c, b, i);
      } else if i > |a| {
        PlainJoinRight(a, c, b, i - |a| - 1);
      } else {
        assert s[i] == c && s[i - 1] == a[|a| - 1] && s[i + 1] == b[0];
      }
    }
  }

  lemma PlainJoinLeft(a: string, c: char, b: string, i: nat)
    requires Plain(a) && b != [] && i < |a| && WordChar(a[|a| - 1])
    ensures PlainAt(a + [c] + b, i)
  {
    var s := a + [c] + b;
    assert PlainAt(a, i);
    assert s[i] == a[i];
    if a[i] == ' ' {
      assert s[i - 1] == a[i - 1] && s[i + 1] == a[i + 1];
    }
  }

  lemma PlainJoinRight(a: string, c: char, b: string, j: nat)
    requires Plain(b) && j < |b| && WordChar(b[0])
    ensures PlainAt(a + [c] + b, |a| + 1 + j)
  {
    var s := a + [c] + b;
    var i := |a| + 1 + j;
    assert PlainAt(b, j);
    assert s[i] == b[j];
    if b[j] == ' ' {
      assert s[i - 1] == b[j - 1] && s[i + 1] == b[j + 1];
    }
  }

  /** A plain character is its own key, and only the space among them is whitespace. */
  lemma PlainChar(c: char)
    requires WordChar(c) || c == ' '
    ensures IsSpace(c) <==> c == ' '
    ensures Canonical(LatinTables, c)
  {
    assert LatinTables.lower == Lower && LatinTables.decompose == Decompose && LatinTables.isMark == IsMark;
    assert !IsUpper(c);
    PlainDecompose(c);
  }

  /** Plain text is collapsed, has no whitespace at its ends, and every character is its
      own key under the Latin-1 tables. */
  lemma PlainCollapsed(s: string)
    requires Plain(s)
    ensures Collapsed(s) && NoEdgeSpace(s)
    ensures forall i :: 0 <= i < |s| ==> Canonical(LatinTables, s[i])
  {
    forall i | 0 <= i < |s| ensures (IsSpace(s[i]) <==> s[i] == ' ') && Canonical(LatinTables, s[i]) {
      assert PlainAt(s, i);
      PlainChar(s[i]);
    }
    forall i, j | 0 <= i < |s| && 0 <= j < |s| && j == i + 1 ensures !(IsSpace(s[i]) && IsSpace(s[j])) {
      assert PlainAt(s, i);
      if s[i] == ' ' {
        assert WordChar(s[j]);
      }
    }
    if s != [] {
      assert PlainAt(s, 0) && PlainAt(s, |s| - 1);
    }
  }

  /** Plain text is its own key. */
  lemma PlainKey(s: string)
    requires Plain(s)
    ensures NormStr(LatinTables, Some(s)) == s
  {
    PlainCollapsed(s);
    NormStrFixedPoint(LatinTables, s);
  }
}
