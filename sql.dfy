/** SQL value semantics that the books table relies on: nullable values,
    SQLite's LIKE operator (default, case-insensitive for ASCII letters only,
    no ESCAPE clause) and the decimal text of an INTEGER column. */
module Sql {

  /** A nullable column value or a nullable Java String argument. */
  datatype Option<T> = None | Some(value: T)

  /** A Java `int`, as bound by `setInt` and read back by `getInt`. */
  type Int32 = x: int | -0x8000_0000 <= x <= 0x7fff_ffff

  /** SQLite folds only the ASCII letters A-Z when comparing under LIKE. */
  function Fold(c: char): (r: char)
    ensures 'A' <= c <= 'Z' ==> r as int == c as int + 32
    ensures !('A' <= c <= 'Z') ==> r == c
    ensures !('A' <= r <= 'Z')
  {
    if 'A' <= c <= 'Z' then (c as int + 32) as char else c
  }

  /** `c` and `d` are one ASCII letter written in its two cases. */
  predicate CaseVariants(c: char, d: char) {
    ('A' <= c <= 'Z' && d as int == c as int + 32) || ('A' <= d <= 'Z' && c as int == d as int + 32)
  }

  /** Two characters fold alike exactly when they are equal or are the same
      ASCII letter in upper and lower case. */
  lemma FoldEqual(c: char, d: char)
    ensures Fold(c) == Fold(d) <==> c == d || CaseVariants(c, d)
  {
  }

  /** Prepending one character to both text and keyword: the keyword occurs at
      the start exactly when the first characters fold alike and the rests do. */
  lemma OccursAtFront(s: string, k: string)
    requires s != [] && k != []
    ensures OccursAt(s, k, 0) <==> Fold(s[0]) == Fold(k[0]) && OccursAt(s[1..], k[1..], 0)
  {
    if OccursAt(s, k, 0) {
      forall j | 0 <= j < |k[1..]| ensures Fold(s[1..][0 + j]) == Fold(k[1..][j]) {
        assert Fold(s[0 + (j + 1)]) == Fold(k[j + 1]);
      }
    }
    if Fold(s[0]) == Fold(k[0]) && OccursAt(s[1..], k[1..], 0) {
      forall j | 0 <= j < |k| ensures Fold(s[0 + j]) == Fold(k[j]) {
        if j > 0 {
          assert Fold(s[1..][0 + (j - 1)]) == Fold(k[1..][j - 1]);
        }
      }
    }
  }

  /** The two LIKE wildcards: `%` (any run of characters) and `_` (one character). */
  predicate IsWildcard(c: char) {
    c == '%' || c == '_'
  }

  predicate NoWildcards(k: string) {
    forall j :: 0 <= j < |k| ==> !IsWildcard(k[j])
  }

  /** `k` occurs in `s` at position `i`, ignoring ASCII case. */
  predicate OccursAt(s: string, k: string, i: nat) {
    i + |k| <= |s| && forall j :: 0 <= j < |k| ==> Fold(s[i + j]) == Fold(k[j])
  }

  /** `s LIKE p` for a non-NULL text `s` and pattern `p`. A pattern without
      wildcards matches exactly the texts equal to it up to ASCII case; a
      pattern made only of `%` matches every text. */
  function Like(s: string, p: string): (r: bool)
    ensures NoWildcards(p) ==> (r <==> |s| == |p| && OccursAt(s, p, 0))
    ensures |p| > 0 && (forall j :: 0 <= j < |p| ==> p[j] == '%') ==> r
    decreases |s| + |p|
  {
    if p == [] then s == []
    else if p[0] == '%' then Like(s, p[1..]) || (s != [] && Like(s[1..], p))
    else
      assert NoWildcards(p) && s != [] ==> NoWildcards(p[1..]) && (OccursAt(s, p, 0) <==> Fold(s[0]) == Fold(p[0]) && OccursAt(s[1..], p[1..], 0)) by {
        if NoWildcards(p) && s != [] {
          OccursAtFront(s, p);
        }
      }
      s != [] && (p[0] == '_' || Fold(s[0]) == Fold(p[0])) && Like(s[1..], p[1..])
  }

  /** `v LIKE p` in a WHERE clause: a NULL operand yields NULL, which never
      selects the row, whatever the pattern. */
  function LikeNullable(v: Option<string>, p: string): (r: bool)
    ensures v.None? ==> !r
    ensures v.Some? && |p| > 0 && (forall j :: 0 <= j < |p| ==> p[j] == '%') ==> r
  {
    v.Some? && Like(v.value, p)
  }

  /** Case-insensitive (ASCII) substring test: the reference meaning of `%k%`. */
  ghost predicate ContainsFolded(s: string, k: string) {
    exists i: nat :: OccursAt(s, k, i)
  }

  function Digit(d: nat): (c: char)
    requires d < 10
    ensures '0' <= c <= '9'
  {
    "0123456789"[d]
  }

  predicate IsDigit(c: char) {
    '0' <= c <= '9'
  }

  /** Decimal text of a natural number, without leading zeros. */
  function NatText(n: nat): (r: string)
    ensures 1 <= |r|
    ensures forall j :: 0 <= j < |r| ==> IsDigit(r[j])
    ensures |r| > 1 ==> r[0] != '0'
  {
    if n < 10 then [Digit(n)] else NatText(n / 10) + [Digit(n % 10)]
  }

  /** The text SQLite gives an INTEGER value when LIKE compares it as a string. */
  function DecimalText(i: int): (r: string)
    ensures 1 <= |r|
    ensures NoWildcards(r)
    ensures i < 0 <==> r[0] == '-'
    ensures i < 0 ==> |r| >= 2
    ensures forall j :: (if i < 0 then 1 else 0) <= j < |r| ==> IsDigit(r[j])
    ensures var first := if i < 0 then 1 else 0; |r| > first + 1 ==> r[first] != '0'
  {
    if i < 0 then "-" + NatText(-i) else NatText(i)
  }

  /** Reading the digits back gives the number: the text is a faithful rendering. */
  function DigitValue(c: char): (d: nat)
    requires IsDigit(c)
    ensures d < 10 && Digit(d) == c
  {
    c as int - '0' as int
  }

  function ParseNat(s: string): (n: nat)
    requires forall j :: 0 <= j < |s| ==> IsDigit(s[j])
  {
    if s == [] then 0 else 10 * ParseNat(s[..|s| - 1]) + DigitValue(s[|s| - 1])
  }

  lemma {:induction false} NatTextRoundTrip(n: nat)
    ensures ParseNat(NatText(n)) == n
  {
    var r := NatText(n);
    if n >= 10 {
      NatTextRoundTrip(n / 10);
      assert r[..|r| - 1] == NatText(n / 10);
    }
  }

  /** The digits of an id's text, read back, give the id's magnitude: the
      text is the decimal rendering of that very number. */
  lemma DecimalTextRoundTrip(i: int)
    ensures var r := DecimalText(i);
      ParseNat(if i < 0 then r[1..] else r) == if i < 0 then -i else i
  {
    if i < 0 {
      assert DecimalText(i)[1..] == NatText(-i);
      NatTextRoundTrip(-i);
    } else {
      NatTextRoundTrip(i);
    }
  }

  /** Distinct ids have distinct texts, so matching an id by its text is well defined. */
  lemma DecimalTextInjective(i: int, j: int)
    requires DecimalText(i) == DecimalText(j)
    ensures i == j
  {
    var t := DecimalText(i);
    assert (i < 0) == (j < 0) by {
      assert i < 0 <==> t[0] == '-';
      assert j < 0 <==> t[0] == '-';
    }
    DecimalTextRoundTrip(i);
    DecimalTextRoundTrip(j);
  }

  // ---------------------------------------------------------------------------
  // The pattern `%k%` with a wildcard-free k selects exactly the texts that
  // contain k, ignoring ASCII case.
  // ---------------------------------------------------------------------------

  /** A wildcard-free prefix of the pattern must be matched literally (up to case). */
  lemma {:induction false} LikeLiteralPrefix(s: string, k: string, q: string)
    requires NoWildcards(k)
    ensures Like(s, k + q) <==> OccursAt(s, k, 0) && Like(s[|k|..], q)
  {
    if k == [] {
      assert k + q == q;
    } else {
      assert (k + q)[0] == k[0] && (k + q)[1..] == k[1..] + q;
      assert !IsWildcard(k[0]);
      if s == [] {
        assert !OccursAt(s, k, 0);
      } else {
        LikeLiteralPrefix(s[1..], k[1..], q);
        if |k| <= |s| {
          assert s[1..][|k[1..]|..] == s[|k|..];
        }
        OccursAtFront(s, k);
      }
    }
  }

  /** A leading `%` lets the rest of the pattern start anywhere in the text. */
  lemma {:induction false} LikeLeadingPercent(s: string, q: string)
    ensures Like(s, "%" + q) <==> exists i :: 0 <= i <= |s| && Like(s[i..], q)
  {
    assert ("%" + q)[0] == '%' && ("%" + q)[1..] == q;
    if s == [] {
      assert s[0..] == s;
    } else {
      LikeLeadingPercent(s[1..], q);
      if Like(s, "%" + q) {
        if Like(s, q) {
          assert s[0..] == s;
        } else {
          var i :| 0 <= i <= |s[1..]| && Like(s[1..][i..], q);
          assert s[1..][i..] == s[i + 1..];
        }
      }
      if exists i :: 0 <= i <= |s| && Like(s[i..], q) {
        var i :| 0 <= i <= |s| && Like(s[i..], q);
        if i == 0 {
          assert s[0..] == s;
        } else {
          assert s[1..][i - 1..] == s[i..];
        }
      }
    }
  }

  /** `s LIKE '%' || k || '%'` holds exactly when `s` contains `k`, ignoring ASCII case. */
  lemma LikeContains(s: string, k: string)
    requires NoWildcards(k)
    ensures Like(s, "%" + k + "%") <==> ContainsFolded(s, k)
  {
    assert "%" + k + "%" == "%" + (k + "%");
    LikeLeadingPercent(s, k + "%");
    forall i | 0 <= i <= |s|
      ensures Like(s[i..], k + "%") <==> OccursAt(s, k, i)
    {
      LikeLiteralPrefix(s[i..], k, "%");
      assert "%"[0] == '%';
      if OccursAt(s[i..], k, 0) {
        forall j | 0 <= j < |k| ensures Fold(s[i + j]) == Fold(k[j]) {
          assert s[i..][0 + j] == s[i + j];
        }
      }
      if OccursAt(s, k, i) {
        forall j | 0 <= j < |k| ensures Fold(s[i..][0 + j]) == Fold(k[j]) {
          assert s[i..][0 + j] == s[i + j];
        }
      }
    }
    if ContainsFolded(s, k) {
      var i: nat :| OccursAt(s, k, i);
      assert Like(s[i..], k + "%");
    }
  }
}
