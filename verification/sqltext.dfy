/**
 * The two pieces of SQLite's text semantics the task store relies on: the LIKE operator
 * with its default settings, and the conversion of an integer to text that happens when
 * an integer is bound as a LIKE pattern.
 */
module SqlText {

  /** LIKE's default case folding: only the ASCII letters A-Z are folded, to a-z. */
  function Fold(c: char): char
  {
    if 'A' <= c <= 'Z' then (c as int + 32) as char else c
  }

  /** Folds every character of `s`. */
  function FoldAll(s: string): (r: string)
    ensures |r| == |s|
    ensures forall i :: 0 <= i < |s| ==> r[i] == Fold(s[i])
  {
    seq(|s|, i requires 0 <= i < |s| => Fold(s[i]))
  }

  /**
   * `s LIKE p` with SQLite's defaults: `%` matches any run of characters, `_` matches any
   * one character, and every other pattern character matches one character equal to it up
   * to ASCII case. There is no escape character.
   */
  function Like(s: string, p: string): bool
    decreases |p|, |s|
  {
    if p == [] then s == []
    else if p[0] == '%' then Like(s, p[1..]) || (s != [] && Like(s[1..], p))
    else s != [] && (p[0] == '_' || Fold(p[0]) == Fold(s[0])) && Like(s[1..], p[1..])
  }

  /** `p` holds neither of LIKE's wildcards. */
  predicate NoWildcards(p: string)
  {
    forall i :: 0 <= i < |p| ==> p[i] != '%' && p[i] != '_'
  }

  /** `keyword` occurs in `s` at index `i` when ASCII case is ignored. */
  predicate OccursAt(s: string, keyword: string, i: int)
  {
    0 <= i <= |s| - |keyword| && FoldAll(s[i..i + |keyword|]) == FoldAll(keyword)
  }

  /** `keyword` occurs somewhere in `s` when ASCII case is ignored. */
  predicate ContainsIgnoreCase(s: string, keyword: string)
  {
    exists i | 0 <= i <= |s| :: OccursAt(s, keyword, i)
  }

  /** A pattern without wildcards matches exactly the strings equal to it up to ASCII case. */
  lemma {:induction false} LikeLiteral(s: string, p: string)
    requires NoWildcards(p)
    ensures Like(s, p) <==> FoldAll(s) == FoldAll(p)
  {
    if p == [] {
    } else if s == [] {
      assert |FoldAll(s)| != |FoldAll(p)|;
    } else {
      assert NoWildcards(p[1..]) by {
        forall i | 0 <= i < |p[1..]| ensures p[1..][i] != '%' && p[1..][i] != '_' {
          assert p[1..][i] == p[i + 1];
        }
      }
      LikeLiteral(s[1..], p[1..]);
      assert FoldAll(s) == [Fold(s[0])] + FoldAll(s[1..]);
      assert FoldAll(p) == [Fold(p[0])] + FoldAll(p[1..]);
    }
  }

  /** A lone `%` matches every string. */
  lemma {:induction false} LikePercent(s: string)
    ensures Like(s, "%")
  {
    if s != [] {
      LikePercent(s[1..]);
    }
  }

  /** A leading `%` lets the rest of the pattern match any suffix. */
  lemma {:induction false} LikeLeadingPercent(s: string, q: string)
    ensures Like(s, ['%'] + q) <==> exists i :: 0 <= i <= |s| && Like(s[i..], q)
  {
    var p := ['%'] + q;
    assert p[1..] == q;
    if s == [] {
      assert s[0..] == s;
    } else {
      LikeLeadingPercent(s[1..], q);
      assert s[0..] == s;
      if exists i :: 0 <= i <= |s| && Like(s[i..], q) {
        var i :| 0 <= i <= |s| && Like(s[i..], q);
        if i > 0 {
          assert s[1..][i - 1..] == s[i..];
        }
      }
      if exists j :: 0 <= j <= |s[1..]| && Like(s[1..][j..], q) {
        var j :| 0 <= j <= |s[1..]| && Like(s[1..][j..], q);
        assert s[1..][j..] == s[j + 1..];
      }
    }
  }

  /** A wildcard-free pattern followed by `%` matches exactly the strings that start with it, up to ASCII case. */
  lemma {:induction false} LikePrefix(s: string, q: string)
    requires NoWildcards(q)
    ensures Like(s, q + ['%']) <==> |q| <= |s| && FoldAll(s[..|q|]) == FoldAll(q)
  {
    var p := q + ['%'];
    if q == [] {
      assert p == "%";
      LikePercent(s);
    } else {
      assert p[0] == q[0] && p[1..] == q[1..] + ['%'];
      assert NoWildcards(q[1..]) by {
        forall i | 0 <= i < |q[1..]| ensures q[1..][i] != '%' && q[1..][i] != '_' {
          assert q[1..][i] == q[i + 1];
        }
      }
      if s != [] {
        LikePrefix(s[1..], q[1..]);
        if |q| <= |s| {
          assert s[..|q|] == [s[0]] + s[1..][..|q[1..]|];
          assert FoldAll(s[..|q|]) == [Fold(s[0])] + FoldAll(s[1..][..|q[1..]|]);
          assert FoldAll(q) == [Fold(q[0])] + FoldAll(q[1..]);
        }
      }
    }
  }

  /**
   * The pattern `%keyword%` that search_tasks builds matches exactly the strings that contain
   * the keyword up to ASCII case, provided the keyword holds no wildcard of its own.
   */
  lemma LikeContains(s: string, keyword: string)
    requires NoWildcards(keyword)
    ensures Like(s, "%" + keyword + "%") <==> ContainsIgnoreCase(s, keyword)
  {
    var q := keyword + ['%'];
    assert "%" + keyword + "%" == ['%'] + q;
    LikeLeadingPercent(s, q);
    if Like(s, ['%'] + q) {
      var i :| 0 <= i <= |s| && Like(s[i..], q);
      LikePrefix(s[i..], keyword);
      assert s[i..][..|keyword|] == s[i..i + |keyword|];
      assert OccursAt(s, keyword, i);
    }
    if ContainsIgnoreCase(s, keyword) {
      var i :| 0 <= i <= |s| && OccursAt(s, keyword, i);
      LikePrefix(s[i..], keyword);
      assert s[i..][..|keyword|] == s[i..i + |keyword|];
    }
  }

  /** The digit character for `d`. */
  function DigitChar(d: nat): (c: char)
    requires d < 10
    ensures '0' <= c <= '9'
  {
    (48 + d) as char
  }

  /** The decimal digits of `n`, most significant first, with no leading zero. */
  function Digits(n: nat): (r: string)
    ensures |r| > 0
    ensures forall i :: 0 <= i < |r| ==> '0' <= r[i] <= '9'
    ensures r[0] == '0' <==> n == 0
    decreases n
  {
    if n < 10 then [DigitChar(n)] else Digits(n / 10) + [DigitChar(n % 10)]
  }

  /**
   * The text SQLite gives an integer when it is used as text: a minus sign for a negative
   * number, then the digits, with no leading zero unless the number is zero.
   */
  function DecimalText(n: int): (r: string)
    ensures forall i :: 0 <= i < |r| ==> r[i] == '-' || '0' <= r[i] <= '9'
    ensures |r| > 0 && (r[0] == '-' <==> n < 0)
    ensures forall i :: (if n < 0 then 1 else 0) <= i < |r| ==> '0' <= r[i] <= '9'
    ensures n < 0 ==> |r| > 1 && r[1] != '0'
    ensures n >= 0 ==> (r[0] == '0' <==> n == 0)
  {
    if n < 0 then "-" + Digits(-n) else Digits(n)
  }

  /** The number a run of decimal digits denotes, most significant first. */
  ghost function DigitsValue(s: string): int
    decreases |s|
  {
    if s == [] then 0 else DigitsValue(s[..|s| - 1]) * 10 + (s[|s| - 1] as int - '0' as int)
  }

  /** The number a decimal numeral with an optional minus sign denotes. */
  ghost function ValueOf(s: string): int
  {
    if s != [] && s[0] == '-' then -DigitsValue(s[1..]) else DigitsValue(s)
  }

  /** The digits of `n` denote `n`. */
  lemma {:induction false} DigitsDenote(n: nat)
    ensures DigitsValue(Digits(n)) == n
  {
    var r := Digits(n);
    if n >= 10 {
      DigitsDenote(n / 10);
      assert r[..|r| - 1] == Digits(n / 10);
    }
  }

  /** An integer's text reads back as the integer. */
  lemma DecimalTextDenotes(n: int)
    ensures ValueOf(DecimalText(n)) == n
  {
    var r := DecimalText(n);
    if n < 0 {
      DigitsDenote(-n);
      assert r[1..] == Digits(-n);
    } else {
      DigitsDenote(n);
      assert r == Digits(n);
    }
  }

  /** Distinct integers have distinct texts, so distinct ids give distinct patterns. */
  lemma DecimalTextInjective(m: int, n: int)
    ensures DecimalText(m) == DecimalText(n) <==> m == n
  {
    DecimalTextDenotes(m);
    DecimalTextDenotes(n);
  }

  /** Folding leaves a digit or '-' unchanged, and no other character folds to one. */
  lemma FoldFixesPlainChar(c: char, x: char)
    requires x == '-' || '0' <= x <= '9'
    ensures Fold(c) == x <==> c == x
  {
  }

  /**
   * Matching against an integer's text is exact equality: the text holds no wildcard and no
   * letter, so case folding changes nothing.
   */
  lemma {:induction false} LikeDecimalIsEquality(s: string, n: int)
    ensures Like(s, DecimalText(n)) <==> s == DecimalText(n)
  {
    var d := DecimalText(n);
    assert NoWildcards(d);
    LikeLiteral(s, d);
    if FoldAll(s) == FoldAll(d) {
      forall i | 0 <= i < |s| ensures s[i] == d[i] {
        assert FoldAll(s)[i] == FoldAll(d)[i];
        FoldFixesPlainChar(s[i], d[i]);
        FoldFixesPlainChar(d[i], d[i]);
      }
    }
  }
}
