/** SQLite's `LIKE` operator as the list query uses it: `%` matches any run of
    characters, `_` any one character, and every other pattern character
    matches itself with ASCII letters compared case-insensitively (SQLite's
    default; there is no ESCAPE clause in the queries). */
module SqlLike {

  /** ASCII lower-casing, the only case folding `LIKE` applies by default. */
  function Lower(c: char): char
  {
    if 'A' <= c <= 'Z' then (c as int - 'A' as int + 'a' as int) as char else c
  }

  /** `s LIKE p`. */
  function Like(p: string, s: string): bool
    decreases |p| + |s|
  {
    if p == [] then s == []
    else if p[0] == '%' then Like(p[1..], s) || (s != [] && Like(p, s[1..]))
    else s != [] && (p[0] == '_' || Lower(p[0]) == Lower(s[0])) && Like(p[1..], s[1..])
  }

  /** A pattern text free of wildcards. */
  predicate Literal(x: string)
  {
    forall i :: 0 <= i < |x| ==> x[i] != '%' && x[i] != '_'
  }

  /** Equal up to ASCII case. */
  predicate FoldEq(x: string, y: string)
  {
    |x| == |y| && forall i :: 0 <= i < |x| ==> Lower(x[i]) == Lower(y[i])
  }

  predicate StartsWithFolded(s: string, x: string)
  {
    |x| <= |s| && FoldEq(s[..|x|], x)
  }

  predicate ContainsFolded(s: string, x: string)
  {
    exists i :: 0 <= i <= |s| - |x| && StartsWithFolded(s[i..], x)
  }

  predicate EndsWithFolded(s: string, x: string)
  {
    |x| <= |s| && FoldEq(s[|s| - |x|..], x)
  }

  /** A lone `%` matches every string. */
  lemma {:induction false} LikeAnything(s: string)
    ensures Like("%", s)
    decreases |s|
  {
    if s != [] {
      LikeAnything(s[1..]);
    }
  }

  /** A literal pattern matches exactly the strings equal to it up to case. */
  lemma {:induction false} LikeLiteral(x: string, s: string)
    requires Literal(x)
    ensures Like(x, s) <==> FoldEq(x, s)
    decreases |x|
  {
    if x != [] {
      if s != [] {
        LikeLiteral(x[1..], s[1..]);
        if FoldEq(x[1..], s[1..]) && Lower(x[0]) == Lower(s[0]) {
          assert FoldEq(x, s) by {
            forall i | 0 <= i < |x| ensures Lower(x[i]) == Lower(s[i]) {
              if i > 0 { assert x[i] == x[1..][i - 1] && s[i] == s[1..][i - 1]; }
            }
          }
        }
        if FoldEq(x, s) {
          assert Lower(x[0]) == Lower(s[0]);
          assert FoldEq(x[1..], s[1..]) by {
            forall i | 0 <= i < |x| - 1 ensures Lower(x[1..][i]) == Lower(s[1..][i]) {
              assert x[1..][i] == x[i + 1] && s[1..][i] == s[i + 1];
            }
          }
        }
      }
    }
  }

  /** A literal followed by `%` matches exactly the strings that start with it up to case. */
  lemma {:induction false} LikePrefix(x: string, s: string)
    requires Literal(x)
    ensures Like(x + "%", s) <==> StartsWithFolded(s, x)
    decreases |x|
  {
    var p := x + "%";
    if x == [] {
      assert p == "%";
      LikeAnything(s);
    } else {
      assert p[0] == x[0] && p[1..] == x[1..] + "%";
      if s != [] {
        LikePrefix(x[1..], s[1..]);
        if StartsWithFolded(s[1..], x[1..]) && Lower(x[0]) == Lower(s[0]) {
          assert StartsWithFolded(s, x) by {
            forall i | 0 <= i < |x| ensures Lower(s[..|x|][i]) == Lower(x[i]) {
              if i > 0 {
                assert x[i] == x[1..][i - 1];
                assert s[..|x|][i] == s[1..][..|x| - 1][i - 1];
              }
            }
          }
        }
        if StartsWithFolded(s, x) {
          assert Lower(s[0]) == Lower(x[0]) by { assert s[..|x|][0] == s[0]; }
          assert StartsWithFolded(s[1..], x[1..]) by {
            forall i | 0 <= i < |x| - 1 ensures Lower(s[1..][..|x| - 1][i]) == Lower(x[1..][i]) {
              assert s[1..][..|x| - 1][i] == s[..|x|][i + 1];
            }
          }
        }
      }
    }
  }

  /** A leading `%` lets the rest of the pattern match any suffix. */
  lemma {:induction false} LikeLeadingPercent(q: string, s: string)
    ensures Like("%" + q, s) <==> exists i :: 0 <= i <= |s| && Like(q, s[i..])
    decreases |s|
  {
    var p := "%" + q;
    assert p[0] == '%' && p[1..] == q;
    assert s[0..] == s;
    if s != [] {
      LikeLeadingPercent(q, s[1..]);
      if exists i :: 0 <= i <= |s| && Like(q, s[i..]) {
        var i :| 0 <= i <= |s| && Like(q, s[i..]);
        if i > 0 {
          assert s[1..][i - 1..] == s[i..];
        }
      }
      if exists i :: 0 <= i <= |s| - 1 && Like(q, s[1..][i..]) {
        var i :| 0 <= i <= |s| - 1 && Like(q, s[1..][i..]);
        assert s[1..][i..] == s[i + 1..];
      }
    }
  }

  /** `s LIKE '%x%'` for a literal `x` is a case-insensitive substring test. */
  lemma LikeContains(x: string, s: string)
    requires Literal(x)
    ensures Like("%" + x + "%", s) <==> ContainsFolded(s, x)
  {
    assert "%" + x + "%" == "%" + (x + "%");
    LikeLeadingPercent(x + "%", s);
    if Like("%" + x + "%", s) {
      var i :| 0 <= i <= |s| && Like(x + "%", s[i..]);
      LikePrefix(x, s[i..]);
    }
    if ContainsFolded(s, x) {
      var i :| 0 <= i <= |s| - |x| && StartsWithFolded(s[i..], x);
      LikePrefix(x, s[i..]);
    }
  }

  /** `s LIKE '%x'` for a literal `x` is a case-insensitive suffix test, not a substring test. */
  lemma LikeEndsWith(x: string, s: string)
    requires Literal(x)
    ensures Like("%" + x, s) <==> EndsWithFolded(s, x)
  {
    LikeLeadingPercent(x, s);
    if Like("%" + x, s) {
      var i :| 0 <= i <= |s| && Like(x, s[i..]);
      LikeLiteral(x, s[i..]);
      assert i == |s| - |x|;
    }
    if EndsWithFolded(s, x) {
      LikeLiteral(x, s[|s| - |x|..]);
    }
  }
}
