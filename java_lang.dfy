/**
 * The few pieces of the Java platform whose exact behaviour the modelled code depends on:
 * `String.split` with a one-character separator, `StringUtils.isBlank`, `String.startsWith`,
 * the truncating remainder `%` on `int`, and the lexicographic order `String.compareTo`
 * that `Arrays.sort` uses.
 */
module JavaLang {

  // ---------------------------------------------------------------------------------------
  // StringUtils.isBlank / isNotBlank

  /** `Character.isWhitespace`, restricted to the ASCII and C0-control characters it accepts. */
  predicate IsWhitespace(c: char) {
    c == ' ' || c == '\t' || c == '\n' || c == '\r' || c == '\U{B}' || c == '\U{C}'
    || ('\U{1C}' <= c <= '\U{1F}')
  }

  /** `StringUtils.isBlank`: empty or whitespace only (a null string is modelled as ""). */
  predicate IsBlank(s: string) {
    forall i :: 0 <= i < |s| ==> IsWhitespace(s[i])
  }

  predicate StartsWith(s: string, prefix: string) {
    |prefix| <= |s| && s[..|prefix|] == prefix
  }

  // ---------------------------------------------------------------------------------------
  // String.split(sep) for a separator that is a single, non-special character

  /** The pieces of `s` between occurrences of `sep`: one more piece than there are separators. */
  function Pieces(s: string, sep: char): (r: seq<string>)
    ensures |r| >= 1
    ensures forall i :: 0 <= i < |r| ==> sep !in r[i]
    decreases |s|
  {
    if s == [] then [""]
    else
      var rest := Pieces(s[1..], sep);
      if s[0] == sep then [""] + rest else [[s[0]] + rest[0]] + rest[1..]
  }

  function DropTrailingEmpty(xs: seq<string>): (r: seq<string>)
    ensures |r| <= |xs| && r == xs[..|r|]
    ensures r == [] || r[|r| - 1] != ""
    ensures forall i :: |r| <= i < |xs| ==> xs[i] == ""
  {
    if xs == [] then []
    else if xs[|xs| - 1] == "" then DropTrailingEmpty(xs[..|xs| - 1])
    else xs
  }

  /**
   * `s.split(sep)`: when `sep` does not occur the result is `[s]` (so `"".split` is `[""]`);
   * otherwise the pieces with trailing empty pieces removed (so `"/".split("/")` is empty).
   */
  function Split(s: string, sep: char): (r: seq<string>)
    ensures sep !in s ==> r == [s]
    ensures forall i :: 0 <= i < |r| ==> sep !in r[i]
    ensures sep in s ==> r == [] || r[|r| - 1] != ""
  {
    if sep !in s then [s] else DropTrailingEmpty(Pieces(s, sep))
  }

  /** The pieces joined back with `sep` between them. */
  function Join(xs: seq<string>, sep: char): string
    requires |xs| >= 1
    decreases |xs|
  {
    if |xs| == 1 then xs[0] else xs[0] + [sep] + Join(xs[1..], sep)
  }

  lemma {:induction false} PiecesOfSeparatorFree(s: string, sep: char)
    requires sep !in s
    ensures Pieces(s, sep) == [s]
    decreases |s|
  {
    if s != [] {
      PiecesOfSeparatorFree(s[1..], sep);
      assert [s[0]] + s[1..] == s;
    }
  }

  lemma {:induction false} PiecesAfterSeparator(a: string, b: string, sep: char)
    requires sep !in a
    ensures Pieces(a + [sep] + b, sep) == [a] + Pieces(b, sep)
    decreases |a|
  {
    if a == [] {
      assert a + [sep] + b == [sep] + b;
      assert ([sep] + b)[1..] == b;
    } else {
      assert (a + [sep] + b)[1..] == a[1..] + [sep] + b;
      PiecesAfterSeparator(a[1..], b, sep);
      assert [a[0]] + a[1..] == a;
    }
  }

  lemma {:induction false} PiecesOfJoin(xs: seq<string>, sep: char)
    requires |xs| >= 1
    requires forall i :: 0 <= i < |xs| ==> sep !in xs[i]
    ensures Pieces(Join(xs, sep), sep) == xs
    decreases |xs|
  {
    if |xs| == 1 {
      PiecesOfSeparatorFree(xs[0], sep);
    } else {
      PiecesOfJoin(xs[1..], sep);
      PiecesAfterSeparator(xs[0], Join(xs[1..], sep), sep);
      assert [xs[0]] + xs[1..] == xs;
    }
  }

  /** Splitting a joined path gives its segments back, provided the last segment is not empty. */
  lemma {:induction false} SplitOfJoin(xs: seq<string>, sep: char)
    requires |xs| >= 1 && xs[|xs| - 1] != ""
    requires forall i :: 0 <= i < |xs| ==> sep !in xs[i]
    ensures Split(Join(xs, sep), sep) == xs
  {
    PiecesOfJoin(xs, sep);
    if sep !in Join(xs, sep) {
      PiecesOfSeparatorFree(Join(xs, sep), sep);
    }
  }

  /** A string without separators is one segment (Java's "no match" case). */
  lemma SplitOfSeparatorFree(s: string, sep: char)
    requires sep !in s
    ensures |Split(s, sep)| == 1 && Split(s, sep)[0] == s
  {
  }

  // ---------------------------------------------------------------------------------------
  // int remainder

  function Abs(x: int): int { if x < 0 then -x else x }

  /** Java's `a / b` on integers: the quotient truncated toward zero. */
  function JavaQuot(a: int, b: int): int
    requires b != 0
  {
    var q := Abs(a) / Abs(b);
    if (a >= 0) == (b > 0) then q else -q
  }

  /** Java's `a % b` on integers: the remainder of truncating division, with the sign of `a`. */
  function JavaRem(a: int, b: int): (r: int)
    requires b != 0
    ensures a >= 0 ==> 0 <= r < Abs(b)
    ensures a < 0 ==> -Abs(b) < r <= 0
    ensures a == JavaQuot(a, b) * b + r
  {
    var r := if a >= 0 then Abs(a) % Abs(b) else -(Abs(a) % Abs(b));
    TruncatedDivision(a, b);
    r
  }

  lemma TruncatedDivision(a: int, b: int)
    requires b != 0
    ensures a == JavaQuot(a, b) * b + (if a >= 0 then Abs(a) % Abs(b) else -(Abs(a) % Abs(b)))
  {
    var n, m := Abs(b), Abs(a);
    var q, t := m / n, m % n;
    assert m == q * n + t;
    var jq := JavaQuot(a, b);
    if a >= 0 && b > 0 {
      assert jq == q && n == b && m == a;
    } else if a >= 0 {
      assert jq == -q && n == -b && m == a;
      assert jq * b == q * n;
    } else if b > 0 {
      assert jq == -q && n == b && m == -a;
      assert jq * b == -(q * n);
    } else {
      assert jq == q && n == -b && m == -a;
      assert jq * b == -(q * n);
    }
  }

  /** Taking a Java remainder by an even modulus keeps the parity of the dividend. */
  lemma JavaRemKeepsParity(a: int, b: int)
    requires b != 0 && b % 2 == 0
    ensures JavaRem(a, b) % 2 == a % 2
  {
    var r, q := JavaRem(a, b), JavaQuot(a, b);
    var h := b / 2;
    assert b == 2 * h;
    assert q * b == 2 * (q * h);
    assert a == 2 * (q * h) + r;
  }

  // ---------------------------------------------------------------------------------------
  // String.compareTo (lexicographic by character, a proper prefix first)

  predicate LexLe(a: string, b: string)
    decreases |a|
  {
    if a == [] then true
    else if b == [] then false
    else if a[0] != b[0] then a[0] < b[0]
    else LexLe(a[1..], b[1..])
  }

  lemma {:induction false} LexLeReflexive(a: string)
    ensures LexLe(a, a)
    decreases |a|
  {
    if a != [] {
      LexLeReflexive(a[1..]);
    }
  }

  lemma {:induction false} LexLeTotal(a: string, b: string)
    ensures LexLe(a, b) || LexLe(b, a)
    decreases |a|
  {
    if a != [] && b != [] && a[0] == b[0] {
      LexLeTotal(a[1..], b[1..]);
    }
  }

  lemma {:induction false} LexLeTransitive(a: string, b: string, c: string)
    requires LexLe(a, b) && LexLe(b, c)
    ensures LexLe(a, c)
    decreases |a|
  {
    if a != [] && b != [] && c != [] && a[0] == b[0] && b[0] == c[0] {
      LexLeTransitive(a[1..], b[1..], c[1..]);
    }
  }

  /** The last element of the names after `Arrays.sort`: the largest in lexicographic order. */
  function Largest(names: seq<string>): (r: string)
    requires |names| > 0
    ensures r in names
    ensures forall i :: 0 <= i < |names| ==> LexLe(names[i], r)
  {
    if |names| == 1 then LexLeReflexive(names[0]); names[0]
    else
      var m := Largest(names[1..]);
      LexLeTotal(names[0], m);
      if LexLe(names[0], m) then
        assert forall i :: 1 <= i < |names| ==> names[i] == names[1..][i - 1];
        m
      else
        LexLeReflexive(names[0]);
        forall i | 1 <= i < |names| ensures LexLe(names[i], names[0]) {
          assert names[i] == names[1..][i - 1];
          LexLeTransitive(names[i], m, names[0]);
        }
        names[0]
  }
}
