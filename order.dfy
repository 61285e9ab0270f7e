/** The order Python uses on `str` values (lexicographic on code points, a proper prefix
    first), which `sorted()` and pandas' `sort_values` apply to region and commune names. */
module Order {

  predicate StrLt(a: string, b: string) {
    if a == [] then b != []
    else if b == [] then false
    else a[0] < b[0] || (a[0] == b[0] && StrLt(a[1..], b[1..]))
  }

  predicate StrLe(a: string, b: string) {
    a == b || StrLt(a, b)
  }

  lemma {:induction false} StrLtIrreflexive(a: string)
    ensures !StrLt(a, a)
  {
    if a != [] {
      StrLtIrreflexive(a[1..]);
    }
  }

  lemma {:induction false} StrLtTransitive(a: string, b: string, c: string)
    requires StrLt(a, b) && StrLt(b, c)
    ensures StrLt(a, c)
  {
    if a != [] && b != [] && c != [] && a[0] == b[0] == c[0] {
      StrLtTransitive(a[1..], b[1..], c[1..]);
    }
  }

  lemma {:induction false} StrLtTotal(a: string, b: string)
    ensures a == b || StrLt(a, b) || StrLt(b, a)
  {
    if a != [] && b != [] && a[0] == b[0] {
      StrLtTotal(a[1..], b[1..]);
      if a[1..] == b[1..] {
        assert a == [a[0]] + a[1..] && b == [b[0]] + b[1..];
      }
    }
  }

  lemma StrLtAsymmetric(a: string, b: string)
    requires StrLt(a, b)
    ensures !StrLt(b, a) && a != b
  {
    StrLtIrreflexive(a);
    if StrLt(b, a) {
      StrLtTransitive(a, b, a);
    }
  }

  lemma StrLeTransitive(a: string, b: string, c: string)
    requires StrLe(a, b) && StrLe(b, c)
    ensures StrLe(a, c)
  {
    if a != b && b != c {
      StrLtTransitive(a, b, c);
    }
  }

  /** Strictly increasing: sorted and without repetition, as `sorted()` of a set is. */
  predicate StrictlyAscending(s: seq<string>) {
    forall i, j :: 0 <= i < j < |s| ==> StrLt(s[i], s[j])
  }

  /** Inserts `x` at its place in a strictly ascending list, unless already there. */
  function Insert(s: seq<string>, x: string): (r: seq<string>)
    requires StrictlyAscending(s)
    ensures StrictlyAscending(r)
    ensures forall y :: y in r <==> y in s || y == x
  {
    if s == [] then [x]
    else if s[0] == x then s
    else if StrLt(x, s[0]) then
      forall j | 0 <= j < |s| ensures StrLt(x, s[j]) {
        if j > 0 { StrLtTransitive(x, s[0], s[j]); }
      }
      [x] + s
    else
      StrLtTotal(x, s[0]);
      var t := Insert(s[1..], x);
      assert forall j :: 0 <= j < |t| ==> StrLt(s[0], t[j]) by {
        forall j | 0 <= j < |t| ensures StrLt(s[0], t[j]) {
          assert t[j] in s[1..] || t[j] == x;
        }
      }
      [s[0]] + t
  }

  /** `sorted(set(xs))`: the distinct elements of `xs` in increasing order. */
  function SortedSet(xs: seq<string>): (r: seq<string>)
    ensures StrictlyAscending(r)
    ensures forall y :: y in r <==> y in xs
  {
    if xs == [] then []
    else Insert(SortedSet(xs[..|xs| - 1]), xs[|xs| - 1])
  }

  /** A non-empty list has an element. */
  lemma HasElement(s: seq<string>)
    requires s != []
    ensures exists y :: y in s
  {
    assert s[0] in s;
  }

  /** Two strictly ascending lists with the same elements start alike. */
  lemma SameHead(s: seq<string>, t: seq<string>)
    requires StrictlyAscending(s) && StrictlyAscending(t) && s != [] && t != []
    requires forall y :: y in s <==> y in t
    ensures s[0] == t[0]
  {
    assert s[0] in s && t[0] in t;
    var j :| 0 <= j < |t| && t[j] == s[0];
    var k :| 0 <= k < |s| && s[k] == t[0];
    if j > 0 && k > 0 {
      StrLtAsymmetric(t[0], t[j]);
    }
  }

  /** A strictly ascending list is determined by its elements: `sorted()` of a set has one
      possible result. */
  lemma {:induction false} AscendingUnique(s: seq<string>, t: seq<string>)
    requires StrictlyAscending(s) && StrictlyAscending(t)
    requires forall y :: y in s <==> y in t
    ensures s == t
  {
    if s == [] || t == [] {
      if s != [] {
        HasElement(s);
      } else if t != [] {
        HasElement(t);
      }
    } else {
      SameHead(s, t);
      forall y ensures y in s[1..] <==> y in t[1..] {
        if y in s[1..] {
          var j :| 1 <= j < |s| && s[j] == y;
          StrLtAsymmetric(s[0], s[j]);
          assert y in t;
          var k :| 0 <= k < |t| && t[k] == y;
          assert t[1..][k - 1] == y;
        }
        if y in t[1..] {
          var j :| 1 <= j < |t| && t[j] == y;
          StrLtAsymmetric(t[0], t[j]);
          assert y in s;
          var k :| 0 <= k < |s| && s[k] == y;
          assert s[1..][k - 1] == y;
        }
      }
      AscendingUnique(s[1..], t[1..]);
    }
  }
}
