/**
 `os.path.splitext` and `os.path.dirname` on POSIX paths, the two path functions
 the ingestion code classifies and groups files by.
 */
module Paths {

  /** `s.rfind(c)`: index of the last `c` in `s`, or -1. */
  function RFind(s: string, c: char): (i: int)
    ensures -1 <= i < |s|
    ensures i >= 0 ==> s[i] == c
    ensures forall k :: i < k < |s| ==> s[k] != c
    decreases |s|
  {
    if s == [] then -1 else if s[|s| - 1] == c then |s| - 1 else RFind(s[..|s| - 1], c)
  }

  /**
   The loop of `splitext` that skips the leading dots of the base name: true when
   some position in `[i, dot)` holds a character other than `.`.
   */
  predicate StemBefore(p: string, i: nat, dot: nat)
    requires dot < |p|
    decreases dot - i
  {
    i < dot && (p[i] != '.' || StemBefore(p, i + 1, dot))
  }

  lemma {:induction false} StemBeforeExists(p: string, i: nat, dot: nat)
    requires dot < |p|
    ensures StemBefore(p, i, dot) <==> exists k :: i <= k < dot && p[k] != '.'
    decreases dot - i
  {
    if i < dot {
      StemBeforeExists(p, i + 1, dot);
    }
  }

  /**
   `splitext` finds an extension exactly when the base name has a `.` with a
   character other than `.` somewhere before it.
   */
  lemma HasExtension(p: string)
    ensures var sep, dot := RFind(p, '/'), RFind(p, '.');
      (dot > sep && StemBefore(p, sep + 1, dot)) <==>
        exists d, k :: sep < k < d < |p| && p[k] != '.' && p[d] == '.'
  {
    HasExtensionAt(p, RFind(p, '/'), RFind(p, '.'));
  }

  lemma HasExtensionAt(p: string, sep: int, dot: int)
    requires sep == RFind(p, '/') && dot == RFind(p, '.')
    ensures (dot > sep && StemBefore(p, sep + 1, dot)) <==>
      exists d, k :: sep < k < d < |p| && p[k] != '.' && p[d] == '.'
  {
    if dot > sep {
      StemBeforeExists(p, sep + 1, dot);
      if StemBefore(p, sep + 1, dot) {
        var k :| sep + 1 <= k < dot && p[k] != '.';
        assert sep < k < dot < |p| && p[k] != '.' && p[dot] == '.';
      } else {
        NoStemBeforeLastDot(p, sep, dot);
      }
    } else {
      forall d | sep < d < |p| ensures p[d] != '.' {
        assert dot < d;
      }
    }
  }

  /** With only dots before the last `.` of the base name, every earlier position is a dot. */
  lemma NoStemBeforeLastDot(p: string, sep: int, dot: int)
    requires -1 <= sep < dot < |p|
    requires forall k :: dot < k < |p| ==> p[k] != '.'
    requires forall k :: sep + 1 <= k < dot ==> p[k] == '.'
    ensures forall d, k :: sep < k < d < |p| && p[d] == '.' ==> p[k] == '.'
  {
    forall d, k | sep < k < d < |p| && p[d] == '.' ensures p[k] == '.' {
      assert d <= dot;
    }
  }

  /** From the last `.` after the last `/`, the tail holds neither a further `.` nor a `/`. */
  lemma LastDotTail(p: string, dot: int, sep: int)
    requires sep == RFind(p, '/') && dot == RFind(p, '.') && sep < dot
    ensures '.' !in p[dot..][1..] && '/' !in p[dot..]
  {
    assert forall k :: 0 <= k < |p| - dot ==> p[dot..][k] == p[dot + k];
  }

  /**
   `os.path.splitext(p)`: the extension starts at the last `.` of the base name,
   provided the base name has a character other than `.` before it; otherwise it is empty.
   */
  function SplitExt(p: string): (r: (string, string))
    ensures r.0 + r.1 == p
    ensures r.1 == [] || (r.1[0] == '.' && '/' !in r.1 && '.' !in r.1[1..])
    ensures r.1 != [] <==>
      exists d, k :: RFind(p, '/') < k < d < |p| && p[k] != '.' && p[d] == '.'
  {
    var sep, dot := RFind(p, '/'), RFind(p, '.');
    HasExtension(p);
    if dot > sep && StemBefore(p, sep + 1, dot) then
      LastDotTail(p, dot, sep);
      (p[..dot], p[dot..])
    else
      (p, [])
  }

  /** The extension of `p` (`os.path.splitext(p)[1]`), dot included. */
  function Ext(p: string): string {
    SplitExt(p).1
  }

  /** Appending `"." + e` to a stem that ends in an ordinary character gives extension `"." + e`. */
  lemma ExtOfAppended(stem: string, e: string)
    requires stem != [] && stem[|stem| - 1] != '.' && stem[|stem| - 1] != '/'
    requires '.' !in e && '/' !in e
    ensures Ext(stem + "." + e) == "." + e
  {
    var p := stem + "." + e;
    var dot := |stem|;
    assert p[dot] == '.';
    forall k | dot < k < |p| ensures p[k] != '.' && p[k] != '/' {
      assert p[k] == e[k - dot - 1];
    }
    assert RFind(p, '.') == dot;
    var sep := RFind(p, '/');
    assert sep < dot - 1 by {
      assert p[dot - 1] == stem[|stem| - 1];
    }
    StemBeforeExists(p, sep + 1, dot);
    assert p[dot - 1] == stem[|stem| - 1];
    assert p[dot..] == "." + e;
  }

  /** A base name with no `.` has no extension. */
  lemma ExtNoDot(p: string)
    requires '.' !in p[RFind(p, '/') + 1..]
    ensures Ext(p) == []
  {
    var sep, dot := RFind(p, '/'), RFind(p, '.');
    assert dot > sep ==> p[dot] in p[sep + 1..] by {
      if dot > sep { assert p[sep + 1..][dot - sep - 1] == p[dot]; }
    }
  }

  /** A base name whose only dot is its first character (`.bashrc`) has no extension. */
  lemma ExtHiddenFile(dir: string, name: string)
    requires '/' !in name && '.' !in name
    ensures Ext(dir + "/." + name) == []
  {
    var p := dir + "/." + name;
    var s := |dir|;
    assert p[s] == '/' && p[s + 1] == '.';
    forall k | s + 1 < k < |p| ensures p[k] != '.' && p[k] != '/' {
      assert p[k] == name[k - s - 2];
    }
    assert RFind(p, '/') == s;
    assert RFind(p, '.') == s + 1;
    StemBeforeExists(p, s + 1, s + 1);
  }

  /** Only the last dot starts the extension, and a base name of dots alone has none. */
  lemma ExtOfDots()
    ensures Ext("a..py") == ".py"
    ensures Ext("..x") == []
  {
    assert RFind("a..py", '/') == -1;
    assert "a..py"[0] != '.' && "a..py"[2] == '.';
    assert RFind("..x", '/') == -1;
  }

  /** All characters of `s` are `/`. */
  predicate AllSlashes(s: string) {
    forall i :: 0 <= i < |s| ==> s[i] == '/'
  }

  /** `s.rstrip('/')` */
  function RStripSlashes(s: string): (r: string)
    ensures |r| <= |s| && r == s[..|r|]
    ensures r == [] || r[|r| - 1] != '/'
    decreases |s|
  {
    if s != [] && s[|s| - 1] == '/' then RStripSlashes(s[..|s| - 1]) else s
  }

  /**
   `os.path.dirname(p)`: everything before the last `/`, without trailing slashes
   unless it consists of slashes only.
   */
  function Dirname(p: string): (d: string)
    ensures |d| <= |p| && d == p[..|d|]
  {
    var i := RFind(p, '/') + 1;
    var head := p[..i];
    if head != [] && !AllSlashes(head) then RStripSlashes(head) else head
  }

  lemma {:induction false} RFindAbsent(s: string, c: char)
    requires c !in s
    ensures RFind(s, c) == -1
    decreases |s|
  {
    if s != [] {
      assert s[|s| - 1] in s;
      assert c !in s[..|s| - 1] by { assert forall x :: x in s[..|s| - 1] ==> x in s; }
      RFindAbsent(s[..|s| - 1], c);
    }
  }

  /** A name without `/` lives in the directory `""`. */
  lemma DirnameOfName(name: string)
    requires '/' !in name
    ensures Dirname(name) == []
  {
    RFindAbsent(name, '/');
  }

  /** The directory of `dir + "/" + name` is `dir`. */
  lemma DirnameOfJoin(dir: string, name: string)
    requires dir != [] && dir[|dir| - 1] != '/'
    requires '/' !in name
    ensures Dirname(dir + "/" + name) == dir
  {
    var p := dir + "/" + name;
    var s := |dir|;
    assert p[s] == '/';
    forall k | s < k < |p| ensures p[k] != '/' {
      assert p[k] == name[k - s - 1];
    }
    assert RFind(p, '/') == s;
    var head := p[..s + 1];
    assert head == dir + "/";
    assert head[s - 1] == dir[s - 1];
    assert head[..s] == dir;
    assert RStripSlashes(head) == RStripSlashes(dir);
    assert RStripSlashes(dir) == dir;
  }
}
