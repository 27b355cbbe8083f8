/** Python's ordering of `str` values: code point by code point, and a string that is a
    proper prefix of another sorts before it. The PR filters compare ISO 8601 timestamps
    and dates with this ordering, not as dates. (Dafny's own `<=` on sequences means
    "is a prefix of", which is a different relation.) */
module IsoText {

  /** Python's `a <= b` on strings. */
  predicate LexLe(a: string, b: string)
  {
    a == [] || (b != [] && (a[0] < b[0] || (a[0] == b[0] && LexLe(a[1..], b[1..]))))
  }

  lemma {:induction false} LexLeReflexive(a: string)
    ensures LexLe(a, a)
  {
    if a != [] {
      LexLeReflexive(a[1..]);
    }
  }

  lemma {:induction false} LexLeTransitive(a: string, b: string, c: string)
    requires LexLe(a, b) && LexLe(b, c)
    ensures LexLe(a, c)
  {
    if a != [] && b != [] && c != [] && a[0] == b[0] == c[0] {
      LexLeTransitive(a[1..], b[1..], c[1..]);
    }
  }

  lemma {:induction false} LexLeAntisymmetric(a: string, b: string)
    requires LexLe(a, b) && LexLe(b, a)
    ensures a == b
  {
    if a != [] && b != [] {
      LexLeAntisymmetric(a[1..], b[1..]);
      assert a == [a[0]] + a[1..] && b == [b[0]] + b[1..];
    }
  }

  lemma {:induction false} LexLeTotal(a: string, b: string)
    ensures LexLe(a, b) || LexLe(b, a)
  {
    if a != [] && b != [] && a[0] == b[0] {
      LexLeTotal(a[1..], b[1..]);
    }
  }

  /** A string sorts no later than any extension of it: "2024-05-01" <= "2024-05-01T10:00:00Z". */
  lemma {:induction false} PrefixSortsFirst(a: string, t: string)
    ensures LexLe(a, a + t)
  {
    if a != [] {
      assert (a + t)[1..] == a[1..] + t;
      PrefixSortsFirst(a[1..], t);
    }
  }

  /** A proper extension sorts strictly after: "2024-05-31T09:00:00Z" <= "2024-05-31" is false. */
  lemma {:induction false} ExtensionSortsAfter(a: string, t: string)
    requires t != []
    ensures !LexLe(a + t, a)
  {
    if a != [] {
      assert (a + t)[1..] == a[1..] + t;
      ExtensionSortsAfter(a[1..], t);
    }
  }

  /** Two different strings of equal length are ordered by their first difference,
      whatever follows them: a date before another date stays before it with any
      time-of-day appended to either. */
  lemma {:induction false} EqualLengthDecides(a: string, b: string, t: string, u: string)
    requires |a| == |b| && a != b && LexLe(a, b)
    ensures LexLe(a + t, b + u)
  {
    assert a != [];
    if a[0] == b[0] {
      assert a == [a[0]] + a[1..] && b == [b[0]] + b[1..];
      assert (a + t)[1..] == a[1..] + t && (b + u)[1..] == b[1..] + u;
      EqualLengthDecides(a[1..], b[1..], t, u);
    }
  }
}
