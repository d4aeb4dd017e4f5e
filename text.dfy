/** The string operations the catalog search relies on: Python's `str.strip()`,
    the ASCII `lower()` SQLite applies for a case-insensitive match, plain
    substring containment, and SQL `LIKE` pattern matching. */
module Text {

  /** The characters Python's `str.isspace()` accepts, which `strip()` removes. */
  predicate IsSpace(c: char)
  {
    || '\t' <= c <= '\r'
    || '\U{1C}' <= c <= ' '
    || c == '\U{85}' || c == '\U{A0}' || c == '\U{1680}'
    || '\U{2000}' <= c <= '\U{200A}'
    || c == '\U{2028}' || c == '\U{2029}' || c == '\U{202F}' || c == '\U{205F}' || c == '\U{3000}'
  }

  function StripLeft(s: string): (r: string)
    ensures |r| <= |s| && r == s[|s| - |r|..]
    ensures forall i :: 0 <= i < |s| - |r| ==> IsSpace(s[i])
    ensures r != [] ==> !IsSpace(r[0])
  {
    if s != [] && IsSpace(s[0]) then StripLeft(s[1..]) else s
  }

  function StripRight(s: string): (r: string)
    ensures |r| <= |s| && r == s[..|r|]
    ensures forall i :: |r| <= i < |s| ==> IsSpace(s[i])
    ensures r != [] ==> !IsSpace(r[|r| - 1])
  {
    if s != [] && IsSpace(s[|s| - 1]) then StripRight(s[..|s| - 1]) else s
  }

  /** `str.strip()`: the input without its leading and trailing whitespace.
      It is empty exactly when the input is all whitespace. */
  function Strip(s: string): (r: string)
    ensures |r| <= |s|
    ensures exists a, b :: (0 <= a <= b <= |s| && r == s[a..b]
      && (forall i :: 0 <= i < a ==> IsSpace(s[i]))
      && (forall i :: b <= i < |s| ==> IsSpace(s[i])))
    ensures r != [] ==> !IsSpace(r[0]) && !IsSpace(r[|r| - 1])
    ensures r == [] <==> forall i :: 0 <= i < |s| ==> IsSpace(s[i])
  {
    var l := StripLeft(s);
    var r := StripRight(l);
    SliceOfSuffix(s, l, r);
    r
  }

  /** A prefix `r` of a suffix `l` of `s` is a slice of `s`; whitespace that
      follows `r` in `l` follows it in `s`. */
  lemma SliceOfSuffix(s: string, l: string, r: string)
    requires |l| <= |s| && l == s[|s| - |l|..]
    requires |r| <= |l| && r == l[..|r|]
    requires forall i :: |r| <= i < |l| ==> IsSpace(l[i])
    ensures r == s[|s| - |l|..|s| - |l| + |r|]
    ensures forall i :: |s| - |l| + |r| <= i < |s| ==> IsSpace(s[i])
  {
    var a := |s| - |l|;
    forall i | a + |r| <= i < |s| ensures IsSpace(s[i]) {
      assert s[i] == l[i - a];
    }
  }

  /** SQLite's `lower()`: ASCII upper-case letters only. */
  function LowerChar(c: char): char
  {
    if 'A' <= c <= 'Z' then (c as int + 32) as char else c
  }

  function Lower(s: string): (r: string)
    ensures |r| == |s|
  {
    seq(|s|, i requires 0 <= i < |s| => LowerChar(s[i]))
  }

  predicate IsPrefix(t: string, s: string)
  {
    |t| <= |s| && s[..|t|] == t
  }

  /** `t` occurs in `s` as a contiguous run (Python's `t in s`). */
  predicate Contains(s: string, t: string)
    decreases |s|
  {
    IsPrefix(t, s) || (s != [] && Contains(s[1..], t))
  }

  /** `t` occurs in `s` starting at position `i`. */
  predicate OccursAt(s: string, t: string, i: int)
  {
    0 <= i <= |s| - |t| && s[i..i + |t|] == t
  }

  /** Contains agrees with the positional definition of a substring. */
  lemma {:induction false} ContainsAt(s: string, t: string)
    ensures Contains(s, t) <==> exists i :: OccursAt(s, t, i)
  {
    if s == [] {
      if t == [] {
        assert OccursAt(s, t, 0);
      }
    } else {
      ContainsAt(s[1..], t);
      if Contains(s, t) {
        if IsPrefix(t, s) {
          assert OccursAt(s, t, 0);
        } else {
          var i :| OccursAt(s[1..], t, i);
          assert s[i + 1..i + 1 + |t|] == t;
          assert OccursAt(s, t, i + 1);
        }
      }
      if exists i :: OccursAt(s, t, i) {
        var i :| OccursAt(s, t, i);
        if i == 0 {
          assert IsPrefix(t, s);
        } else {
          assert s[1..][i - 1..i - 1 + |t|] == t;
          assert OccursAt(s[1..], t, i - 1);
        }
      }
    }
  }

  /** SQL `LIKE`: '%' matches any run of characters, '_' any single character,
      every other character itself. */
  predicate Like(s: string, p: string)
    decreases |s| + |p|
  {
    if p == [] then s == []
    else if p[0] == '%' then Like(s, p[1..]) || (s != [] && Like(s[1..], p))
    else s != [] && (p[0] == '_' || p[0] == s[0]) && Like(s[1..], p[1..])
  }

  /** A string with no LIKE wildcard in it. */
  predicate Literal(t: string)
  {
    forall i :: 0 <= i < |t| ==> t[i] != '%' && t[i] != '_'
  }

  lemma {:induction false} LikeAnyTail(s: string)
    ensures Like(s, "%")
  {
    if s != [] {
      LikeAnyTail(s[1..]);
    }
  }

  lemma {:induction false} LikeLiteralThenAny(s: string, t: string)
    requires Literal(t)
    ensures Like(s, t + "%") <==> IsPrefix(t, s)
  {
    if t == [] {
      assert t + "%" == "%";
      LikeAnyTail(s);
    } else {
      assert (t + "%")[1..] == t[1..] + "%";
      if s != [] {
        LikeLiteralThenAny(s[1..], t[1..]);
        assert IsPrefix(t, s) <==> s[0] == t[0] && IsPrefix(t[1..], s[1..]);
      }
    }
  }

  /** For a query free of wildcards, `LIKE '%t%'` is exactly substring containment. */
  lemma {:induction false} LikeInfix(s: string, t: string)
    requires Literal(t)
    ensures Like(s, "%" + t + "%") <==> Contains(s, t)
  {
    assert ("%" + t + "%")[1..] == t + "%";
    LikeLiteralThenAny(s, t);
    if s != [] {
      LikeInfix(s[1..], t);
    }
  }

  /** A pattern read literally matches its own text followed by anything:
      '_' matches itself as any character does, and '%' can consume itself. */
  lemma {:induction false} LikeSelfThenAny(t: string, s: string)
    ensures Like(t + s, t + "%")
  {
    if t == [] {
      assert t + s == s && t + "%" == "%";
      LikeAnyTail(s);
    } else {
      assert (t + s)[1..] == t[1..] + s;
      assert (t + "%")[1..] == t[1..] + "%";
      LikeSelfThenAny(t[1..], s);
      if t[0] == '%' {
        assert Like(t[1..] + s, t + "%");
      }
    }
  }

  /** Wherever `t` occurs as a substring, `LIKE '%t%'` matches, wildcards in
      `t` or not: wildcards only widen the match. */
  lemma {:induction false} LikeFindsSubstring(s: string, t: string)
    ensures Contains(s, t) ==> Like(s, "%" + t + "%")
  {
    assert ("%" + t + "%")[1..] == t + "%";
    if IsPrefix(t, s) {
      assert s == t + s[|t|..];
      LikeSelfThenAny(t, s[|t|..]);
    } else if s != [] {
      LikeFindsSubstring(s[1..], t);
    }
  }

  /** `LIKE '%_%'` matches every non-empty string. */
  lemma LikeUnderscoreMatchesNonEmpty(s: string)
    requires s != []
    ensures Like(s, "%" + "_" + "%")
  {
    var p := "%" + "_" + "%";
    assert p[1..] == "_%" && p[1..][1..] == "%";
    LikeAnyTail(s[1..]);
    assert Like(s, p[1..]);
  }

  /** A string without '_' does not contain "_", nor does its lower-cased form. */
  lemma {:induction false} NoUnderscoreNotContained(s: string)
    requires forall i :: 0 <= i < |s| ==> s[i] != '_'
    ensures !Contains(Lower(s), "_")
  {
    ContainsAt(Lower(s), "_");
    forall i ensures !OccursAt(Lower(s), "_", i) {
      if 0 <= i < |s| {
        assert Lower(s)[i..i + 1][0] == Lower(s)[i] != '_';
      }
    }
  }

  /** Lowering neither creates nor removes a wildcard character. */
  lemma LowerKeepsLiteral(t: string)
    ensures Literal(Lower(t)) <==> Literal(t)
  {
    assert forall i :: 0 <= i < |t| ==> (Lower(t)[i] == '%' <==> t[i] == '%') && (Lower(t)[i] == '_' <==> t[i] == '_');
  }
}
