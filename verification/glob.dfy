/**
 `fnmatch.fnmatch(name, pattern)` on a POSIX system, for patterns made of `*`, `?`
 and literal characters. `*` matches any run of characters, `/` included, `?`
 matches exactly one character, and the whole name must match, so `**` behaves
 like a single `*`.
 */
module Glob {

  /** No wildcard in `s`: it matches only itself. */
  predicate IsLiteral(s: string) {
    '*' !in s && '?' !in s
  }

  predicate EndsWith(s: string, suffix: string) {
    |suffix| <= |s| && s[|s| - |suffix|..] == suffix
  }

  /** Whole-string match of `name` against `pat`. */
  predicate Match(name: string, pat: string)
    decreases |pat| + |name|
  {
    if pat == [] then name == []
    else if pat[0] == '*' then Match(name, pat[1..]) || (name != [] && Match(name[1..], pat))
    else name != [] && (pat[0] == '?' || pat[0] == name[0]) && Match(name[1..], pat[1..])
  }

  /** A leading `*` matches exactly when some suffix of the name matches the rest of the pattern. */
  lemma {:induction false} MatchStar(name: string, p: string)
    ensures Match(name, ['*'] + p) <==> exists k :: 0 <= k <= |name| && Match(name[k..], p)
    decreases |name|
  {
    var sp := ['*'] + p;
    assert sp[1..] == p;
    if name == [] {
      assert name[0..] == name;
    } else {
      MatchStar(name[1..], p);
      if Match(name, sp) {
        if Match(name, p) {
          assert name[0..] == name;
        } else {
          var k :| 0 <= k <= |name[1..]| && Match(name[1..][k..], p);
          assert name[1..][k..] == name[k + 1..];
        }
      }
      if exists k :: 0 <= k <= |name| && Match(name[k..], p) {
        var k :| 0 <= k <= |name| && Match(name[k..], p);
        if k == 0 {
          assert name[0..] == name;
        } else {
          assert name[1..][k - 1..] == name[k..];
        }
      }
    }
  }

  /** `**` is two `*`s, and two `*`s match what one does. */
  lemma DoubleStar(name: string, p: string)
    ensures Match(name, ['*', '*'] + p) <==> Match(name, ['*'] + p)
  {
    var sp := ['*'] + p;
    assert ['*', '*'] + p == ['*'] + sp;
    MatchStar(name, sp);
    MatchStar(name, p);
    if Match(name, ['*'] + sp) {
      var k :| 0 <= k <= |name| && Match(name[k..], sp);
      MatchStar(name[k..], p);
      var k' :| 0 <= k' <= |name[k..]| && Match(name[k..][k'..], p);
      assert name[k..][k'..] == name[k + k'..];
    }
    if Match(name, sp) {
      assert name[0..] == name;
    }
  }

  /** A literal pattern matches only the identical name. */
  lemma {:induction false} MatchLiteral(name: string, lit: string)
    requires IsLiteral(lit)
    ensures Match(name, lit) <==> name == lit
    decreases |lit|
  {
    if lit != [] {
      assert lit[0] in lit;
      assert IsLiteral(lit[1..]) by {
        assert forall c :: c in lit[1..] ==> c in lit;
      }
      if name != [] {
        MatchLiteral(name[1..], lit[1..]);
        if name[0] == lit[0] && name[1..] == lit[1..] {
          assert name == [name[0]] + name[1..] && lit == [lit[0]] + lit[1..];
        }
      }
    }
  }

  /** `*` followed by a literal matches exactly the names that end with that literal. */
  lemma StarLiteral(name: string, lit: string)
    requires IsLiteral(lit)
    ensures Match(name, ['*'] + lit) <==> EndsWith(name, lit)
  {
    MatchStar(name, lit);
    if Match(name, ['*'] + lit) {
      var k :| 0 <= k <= |name| && Match(name[k..], lit);
      MatchLiteral(name[k..], lit);
    }
    if EndsWith(name, lit) {
      MatchLiteral(name[|name| - |lit|..], lit);
    }
  }

  /** Matches compose: a name made of two parts matches the concatenated patterns. */
  lemma {:induction false} MatchConcat(a: string, p: string, b: string, q: string)
    requires Match(a, p) && Match(b, q)
    ensures Match(a + b, p + q)
    decreases |p| + |a|
  {
    if p == [] {
      assert a + b == b && p + q == q;
    } else if p[0] == '*' {
      assert (p + q)[0] == '*' && (p + q)[1..] == p[1..] + q;
      if Match(a, p[1..]) {
        MatchConcat(a, p[1..], b, q);
      } else {
        MatchConcat(a[1..], p, b, q);
        assert (a + b)[1..] == a[1..] + b;
      }
    } else {
      assert (p + q)[0] == p[0] && (p + q)[1..] == p[1..] + q;
      assert (a + b)[0] == a[0] && (a + b)[1..] == a[1..] + b;
      MatchConcat(a[1..], p[1..], b, q);
    }
  }

  /** `*` matches every name. */
  lemma StarMatchesAll(name: string)
    ensures Match(name, "*")
  {
    MatchStar(name, []);
    assert name[|name|..] == [];
  }
}
