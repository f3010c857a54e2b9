/**
 `pathlib.Path(p).as_posix()` on POSIX, the normal form a path is brought to before
 it is matched against ignore patterns.
 */
module Pathlib {
  import PyStrings

  /** A part between slashes that `pathlib` keeps: not empty and not `.`. */
  predicate KeptPart(x: string) {
    x != [] && x != "."
  }

  /** The parts `pathlib` keeps, in order. */
  function KeepParts(ps: seq<string>): (r: seq<string>)
    ensures forall x :: x in r <==> x in ps && KeptPart(x)
    ensures (forall i :: 0 <= i < |ps| ==> KeptPart(ps[i])) ==> r == ps
    decreases |ps|
  {
    if ps == [] then []
    else
      var rest := KeepParts(ps[1..]);
      assert forall x :: x in ps <==> x == ps[0] || x in ps[1..];
      if KeptPart(ps[0]) then [ps[0]] + rest else rest
  }

  /** The parts of `p` that survive parsing: no empty part, no `.`, no slash inside. */
  function PathParts(p: string): (r: seq<string>)
    ensures forall i :: 0 <= i < |r| ==> KeptPart(r[i]) && '/' !in r[i]
  {
    var r := KeepParts(PyStrings.SplitOn(p, '/'));
    assert forall i :: 0 <= i < |r| ==> r[i] in r;
    r
  }

  /**
   The root `pathlib` keeps on POSIX: `//` for exactly two leading slashes, `/` for
   one or for three and more, nothing for a relative path.
   */
  function PathRoot(p: string): (root: string)
    ensures root == [] || root == "/" || root == "//"
    ensures root == [] <==> (p == [] || p[0] != '/')
  {
    if |p| >= 2 && p[0] == '/' && p[1] == '/' && (|p| == 2 || p[2] != '/') then "//"
    else if p != [] && p[0] == '/' then "/"
    else ""
  }

  /**
   `pathlib.Path(p).as_posix()` on POSIX: the root followed by the kept parts joined
   with `/`, or `.` when nothing is left. Repeated and trailing slashes and `.`
   parts disappear; `..` parts stay.
   */
  function AsPosix(p: string): (r: string)
    ensures r != []
    ensures r[0] == '/' <==> PathRoot(p) != []
  {
    var root := PathRoot(p);
    var parts := PathParts(p);
    if root == [] && parts == [] then "."
    else if root == [] then
      JoinHead(parts);
      PyStrings.Join(parts, "/")
    else root + PyStrings.Join(parts, "/")
  }

  /** The normal form has the root and the parts of the path it came from. */
  lemma AsPosixNormalises(p: string)
    ensures PathRoot(AsPosix(p)) == PathRoot(p) && PathParts(AsPosix(p)) == PathParts(p)
  {
    var root := PathRoot(p);
    var parts := PathParts(p);
    if root == [] && parts == [] {
      PyStrings.SplitOnNoSep(".", '/');
    } else {
      NormalForm(root, parts);
      assert AsPosix(p) == root + PyStrings.Join(parts, "/");
    }
  }

  /** A join of non-empty parts starts with the first part. */
  lemma JoinHead(ps: seq<string>)
    requires |ps| >= 1 && ps[0] != []
    ensures PyStrings.Join(ps, "/") != [] && PyStrings.Join(ps, "/")[0] == ps[0][0]
  {
  }

  /** A leading slash adds only an empty part. */
  lemma SlashParts(body: string)
    ensures KeepParts(PyStrings.SplitOn("/" + body, '/')) == KeepParts(PyStrings.SplitOn(body, '/'))
  {
    PyStrings.SplitOnCons([], '/', body);
    assert "/" + body == [] + ['/'] + body;
    var s := PyStrings.SplitOn(body, '/');
    assert ([[]] + s)[1..] == s;
  }

  /** A root in front of a path adds only empty parts. */
  lemma RootedParts(root: string, body: string)
    requires root == [] || root == "/" || root == "//"
    ensures KeepParts(PyStrings.SplitOn(root + body, '/')) == KeepParts(PyStrings.SplitOn(body, '/'))
  {
    if root == [] {
      assert root + body == body;
    } else if root == "/" {
      SlashParts(body);
    } else {
      var s := "/" + body;
      SlashParts(s);
      SlashParts(body);
      assert root + body == "/" + s;
    }
  }

  /** Splitting a join of kept parts gives them back. */
  lemma KeepJoinedParts(parts: seq<string>)
    requires forall i :: 0 <= i < |parts| ==> KeptPart(parts[i]) && '/' !in parts[i]
    ensures KeepParts(PyStrings.SplitOn(PyStrings.Join(parts, "/"), '/')) == parts
  {
    if parts != [] {
      PyStrings.SplitOnJoin(parts, '/');
      assert "/" == ['/'];
    }
  }

  /** A root followed by joined kept parts has exactly that root and those parts. */
  lemma NormalForm(root: string, parts: seq<string>)
    requires root == [] || root == "/" || root == "//"
    requires forall i :: 0 <= i < |parts| ==> KeptPart(parts[i]) && '/' !in parts[i]
    requires root != [] || parts != []
    ensures PathRoot(root + PyStrings.Join(parts, "/")) == root
    ensures PathParts(root + PyStrings.Join(parts, "/")) == parts
  {
    var body := PyStrings.Join(parts, "/");
    if parts != [] {
      JoinHead(parts);
      assert parts[0][0] in parts[0];
    }
    NormalRoot(root, body);
    RootedParts(root, body);
    KeepJoinedParts(parts);
  }

  /** A root in front of a relative body is the root of the whole. */
  lemma NormalRoot(root: string, body: string)
    requires root == [] || root == "/" || root == "//"
    requires body == [] || body[0] != '/'
    requires root != [] || body != []
    ensures PathRoot(root + body) == root
  {
    var r := root + body;
    if body != [] {
      assert r[|root|] == body[0];
    } else {
      assert r == root;
    }
  }

  /** The normal form is its own normal form. */
  lemma AsPosixIdempotent(p: string)
    ensures AsPosix(AsPosix(p)) == AsPosix(p)
  {
    AsPosixNormalises(p);
  }

  /** A relative path of kept parts is already in normal form. */
  lemma AsPosixOfParts(parts: seq<string>)
    requires parts != []
    requires forall i :: 0 <= i < |parts| ==> KeptPart(parts[i]) && '/' !in parts[i]
    ensures AsPosix(PyStrings.Join(parts, "/")) == PyStrings.Join(parts, "/")
  {
    NormalForm([], parts);
    assert [] + PyStrings.Join(parts, "/") == PyStrings.Join(parts, "/");
    AsPosixNormalises(PyStrings.Join(parts, "/"));
  }

  /** A leading `./` disappears from a relative path. */
  lemma AsPosixDotPrefix(p: string)
    requires p == [] || p[0] != '/'
    ensures AsPosix("./" + p) == AsPosix(p)
  {
    PyStrings.SplitOnCons(".", '/', p);
    assert "./" + p == "." + ['/'] + p;
    assert PathParts("./" + p) == PathParts(p);
    assert PathRoot("./" + p) == PathRoot(p);
  }

  /** A file walked under the root `.` is matched as the path without `./`. */
  lemma WalkedUnderDot(parts: seq<string>)
    requires parts != []
    requires forall i :: 0 <= i < |parts| ==> KeptPart(parts[i]) && '/' !in parts[i]
    ensures AsPosix("./" + PyStrings.Join(parts, "/")) == PyStrings.Join(parts, "/")
  {
    JoinHead(parts);
    assert parts[0][0] in parts[0];
    AsPosixDotPrefix(PyStrings.Join(parts, "/"));
    AsPosixOfParts(parts);
  }
}
