/**
 The insertion-ordered groupings of `process_code_files`: the dicts of lists that
 bucket the walked files by extension and then by directory, and the find-or-append
 step they share with the `file_chunks` list of `(path, chunks)` entries.
 */
module Grouping {
  import opened Optional
  import opened Paths
  import FileHelpers
  import LegacyHelpers

  /**
   One key of an insertion-ordered dict of lists, or one `(path, chunks)` entry of
   `file_chunks`: the key and the values appended under it, in order.
   */
  datatype Bucket = Bucket(key: string, items: seq<string>)

  predicate DistinctKeys(bs: seq<Bucket>) {
    forall i, j :: 0 <= i < j < |bs| ==> bs[i].key != bs[j].key
  }

  predicate NoEmptyBucket(bs: seq<Bucket>) {
    forall i :: 0 <= i < |bs| ==> bs[i].items != []
  }

  /** The position of the first entry with key `k`: what `next(... if path == k)` and a dict lookup find. */
  function FindKey(bs: seq<Bucket>, k: string): (r: Option<nat>)
    ensures r.None? <==> forall i :: 0 <= i < |bs| ==> bs[i].key != k
    ensures r.Some? ==> r.value < |bs| && bs[r.value].key == k
    ensures r.Some? ==> forall j :: 0 <= j < r.value ==> bs[j].key != k
    decreases |bs|
  {
    if bs == [] then None
    else if bs[0].key == k then Some(0)
    else
      assert forall i :: 1 <= i < |bs| ==> bs[i] == bs[1..][i - 1];
      match FindKey(bs[1..], k)
      case None => None
      case Some(i) => Some(i + 1)
  }

  /** An entry with key `k` and none before it is what `FindKey` finds. */
  lemma {:induction false} FindKeyFirst(bs: seq<Bucket>, k: string, j: nat)
    requires j < |bs| && bs[j].key == k
    requires forall q :: 0 <= q < j ==> bs[q].key != k
    ensures FindKey(bs, k) == Some(j)
    decreases |bs|
  {
    if bs[0].key != k {
      assert j > 0;
      forall q | 0 <= q < j - 1 ensures bs[1..][q].key != k {
        assert bs[1..][q] == bs[q + 1];
      }
      FindKeyFirst(bs[1..], k, j - 1);
    }
  }

  /** Two entry lists that agree on their keys up to the first `k` find `k` at the same place. */
  lemma FindKeyAgrees(a: seq<Bucket>, b: seq<Bucket>, k: string)
    requires |a| <= |b|
    requires forall i :: 0 <= i < |a| ==> a[i].key == b[i].key
    requires forall i :: |a| <= i < |b| ==> b[i].key != k
    ensures FindKey(a, k) == FindKey(b, k)
  {
    match FindKey(a, k)
    case Some(j) => FindKeyFirst(b, k, j);
    case None =>
  }

  /** The values under key `k`: those of its first entry, or none. */
  function Lookup(bs: seq<Bucket>, k: string): seq<string> {
    match FindKey(bs, k)
    case None => []
    case Some(i) => bs[i].items
  }

  /** The number of values over all entries. */
  function Total(bs: seq<Bucket>): nat
    decreases |bs|
  {
    if bs == [] then 0 else Total(bs[..|bs| - 1]) + |bs[|bs| - 1].items|
  }

  /** Replacing one entry changes the total by the difference of their sizes. */
  lemma {:induction false} TotalUpdate(bs: seq<Bucket>, i: nat, b: Bucket)
    requires i < |bs|
    ensures Total(bs[i := b]) == Total(bs) - |bs[i].items| + |b.items|
    decreases |bs|
  {
    var r := bs[i := b];
    if i == |bs| - 1 {
      assert r[..|r| - 1] == bs[..|bs| - 1];
    } else {
      assert r[..|r| - 1] == bs[..|bs| - 1][i := b];
      TotalUpdate(bs[..|bs| - 1], i, b);
    }
  }

  /**
   Find-or-append: `x` is appended to the values of the first entry with key `k`,
   or a new entry `(k, [x])` is added at the end. The existing keys stay where they
   are, and the total grows by one.
   */
  function AddToBucket(bs: seq<Bucket>, k: string, x: string): (r: seq<Bucket>)
    ensures |r| == if FindKey(bs, k).Some? then |bs| else |bs| + 1
    ensures forall i :: 0 <= i < |bs| ==> r[i].key == bs[i].key
    ensures FindKey(bs, k).None? ==> r[|bs|].key == k
    ensures DistinctKeys(bs) ==> DistinctKeys(r)
    ensures NoEmptyBucket(bs) ==> NoEmptyBucket(r)
    ensures Total(r) == Total(bs) + 1
  {
    match FindKey(bs, k)
    case Some(i) =>
      var r := bs[i := Bucket(k, bs[i].items + [x])];
      TotalUpdate(bs, i, Bucket(k, bs[i].items + [x]));
      r
    case None =>
      var r := bs + [Bucket(k, [x])];
      assert r[..|r| - 1] == bs;
      r
  }

  /** Find-or-append adds `x` at the end of the values under `k` and leaves every other key's values alone. */
  lemma AddToBucketLookup(bs: seq<Bucket>, k: string, x: string, k': string)
    ensures Lookup(AddToBucket(bs, k, x), k') == if k' == k then Lookup(bs, k) + [x] else Lookup(bs, k')
  {
    if FindKey(bs, k).Some? {
      AddToPresentKey(bs, k, x, FindKey(bs, k).value, k');
    } else {
      AddToAbsentKey(bs, k, x, k');
    }
  }

  lemma AddToPresentKey(bs: seq<Bucket>, k: string, x: string, i: nat, k': string)
    requires FindKey(bs, k) == Some(i)
    ensures Lookup(AddToBucket(bs, k, x), k') == if k' == k then Lookup(bs, k) + [x] else Lookup(bs, k')
  {
    var r := bs[i := Bucket(k, bs[i].items + [x])];
    assert AddToBucket(bs, k, x) == r;
    FindKeyAgrees(r, bs, k');
    if FindKey(bs, k').Some? {
      var j := FindKey(bs, k').value;
      assert j == i <==> k' == k;
    }
  }

  lemma AddToAbsentKey(bs: seq<Bucket>, k: string, x: string, k': string)
    requires FindKey(bs, k) == None
    ensures Lookup(AddToBucket(bs, k, x), k') == if k' == k then Lookup(bs, k) + [x] else Lookup(bs, k')
  {
    var r := bs + [Bucket(k, [x])];
    assert AddToBucket(bs, k, x) == r;
    if k' == k {
      FindKeyFirst(r, k, |bs|);
    } else {
      FindKeyAgrees(bs, r, k');
    }
  }

  // ---------------------------------------------------------------------------
  // Grouping a list of paths by a key

  /** The values of `xs` whose key is `k`, in order. */
  function Select(xs: seq<string>, f: string -> string, k: string): (r: seq<string>)
    ensures |r| <= |xs|
    ensures forall x :: x in r <==> x in xs && f(x) == k
    decreases |xs|
  {
    if xs == [] then []
    else
      var init, last := xs[..|xs| - 1], xs[|xs| - 1];
      assert xs == init + [last];
      Select(init, f, k) + (if f(last) == k then [last] else [])
  }

  /** Where the first value with key `k` sits in `xs`, or `|xs|` when there is none. */
  function FirstPos(xs: seq<string>, f: string -> string, k: string): (p: nat)
    ensures p <= |xs|
    ensures forall q :: 0 <= q < p ==> f(xs[q]) != k
    ensures p < |xs| ==> f(xs[p]) == k
    decreases |xs|
  {
    if xs == [] then 0
    else if f(xs[0]) == k then 0
    else 1 + FirstPos(xs[1..], f, k)
  }

  lemma {:induction false} FirstPosUnique(xs: seq<string>, f: string -> string, k: string, p: nat)
    requires p <= |xs|
    requires forall q :: 0 <= q < p ==> f(xs[q]) != k
    requires p < |xs| ==> f(xs[p]) == k
    ensures p == FirstPos(xs, f, k)
    decreases |xs|
  {
    if xs != [] && f(xs[0]) != k {
      assert p > 0;
      forall q | 0 <= q < p - 1 ensures f(xs[1..][q]) != k {
        assert xs[1..][q] == xs[q + 1];
      }
      FirstPosUnique(xs[1..], f, k, p - 1);
    }
  }

  /** Appending a value does not move the first position of a key already present. */
  lemma FirstPosAppend(xs: seq<string>, y: string, f: string -> string, k: string)
    ensures FirstPos(xs, f, k) < |xs| ==> FirstPos(xs + [y], f, k) == FirstPos(xs, f, k)
    ensures FirstPos(xs, f, k) == |xs| ==> FirstPos(xs + [y], f, k) >= |xs|
  {
    var p := FirstPos(xs, f, k);
    var ys := xs + [y];
    if p < |xs| {
      FirstPosUnique(ys, f, k, p);
    } else {
      assert forall q :: 0 <= q < |xs| ==> ys[q] == xs[q];
      assert forall q :: 0 <= q < |xs| ==> f(ys[q]) != k;
    }
  }

  /**
   The dict-of-lists loop (`if key not in d: d[key] = []`, then `d[key].append(x)`):
   every value goes to the bucket of its key.
   */
  function GroupBy(xs: seq<string>, f: string -> string): seq<Bucket>
    decreases |xs|
  {
    if xs == [] then [] else AddToBucket(GroupBy(xs[..|xs| - 1], f), f(xs[|xs| - 1]), xs[|xs| - 1])
  }

  /** The grouping keeps one bucket per key, never an empty one, and every value of the input. */
  lemma {:induction false} GroupByShape(xs: seq<string>, f: string -> string)
    ensures DistinctKeys(GroupBy(xs, f))
    ensures NoEmptyBucket(GroupBy(xs, f))
    ensures Total(GroupBy(xs, f)) == |xs|
    decreases |xs|
  {
    if xs != [] {
      GroupByShape(xs[..|xs| - 1], f);
    }
  }

  /** The bucket of key `k` holds exactly the values with key `k`, in input order. */
  lemma {:induction false} GroupByContents(xs: seq<string>, f: string -> string, k: string)
    ensures Lookup(GroupBy(xs, f), k) == Select(xs, f, k)
    decreases |xs|
  {
    if xs != [] {
      var init, last := xs[..|xs| - 1], xs[|xs| - 1];
      GroupByContents(init, f, k);
      AddToBucketLookup(GroupBy(init, f), f(last), last, k);
    }
  }

  /** There is a bucket for `k` exactly when some value has key `k`. */
  lemma GroupByKeys(xs: seq<string>, f: string -> string, k: string)
    ensures FindKey(GroupBy(xs, f), k).Some? <==> exists x :: x in xs && f(x) == k
  {
    var g := GroupBy(xs, f);
    GroupByShape(xs, f);
    GroupByContents(xs, f, k);
    var sel := Select(xs, f, k);
    if FindKey(g, k).Some? {
      assert sel != [] && sel[0] in sel;
    }
    if exists x :: x in xs && f(x) == k {
      var x :| x in xs && f(x) == k;
      assert x in sel;
    }
  }

  /** The buckets come in the order their keys first occur in the input. */
  lemma {:induction false} GroupByOrder(xs: seq<string>, f: string -> string)
    ensures var g := GroupBy(xs, f);
      forall i, j :: 0 <= i < j < |g| ==> FirstPos(xs, f, g[i].key) < FirstPos(xs, f, g[j].key)
    decreases |xs|
  {
    if xs != [] {
      var init, last := xs[..|xs| - 1], xs[|xs| - 1];
      assert xs == init + [last];
      GroupByOrder(init, f);
      forall i, j | 0 <= i < j < |GroupBy(xs, f)|
        ensures FirstPos(xs, f, GroupBy(xs, f)[i].key) < FirstPos(xs, f, GroupBy(xs, f)[j].key)
      {
        GroupByOrderStep(init, last, f, i, j);
      }
    }
  }

  lemma GroupByOrderStep(init: seq<string>, last: string, f: string -> string, i: nat, j: nat)
    requires var g0 := GroupBy(init, f);
      forall i, j :: 0 <= i < j < |g0| ==> FirstPos(init, f, g0[i].key) < FirstPos(init, f, g0[j].key)
    requires i < j < |GroupBy(init + [last], f)|
    ensures var g := GroupBy(init + [last], f);
      FirstPos(init + [last], f, g[i].key) < FirstPos(init + [last], f, g[j].key)
  {
    var xs := init + [last];
    assert xs[..|xs| - 1] == init;
    var g0, g := GroupBy(init, f), GroupBy(xs, f);
    assert g == AddToBucket(g0, f(last), last);
    FirstPosAppend(init, last, f, g[i].key);
    FirstPosAppend(init, last, f, g[j].key);
    OccursBeforeEnd(init, f, i);
    if j < |g0| {
      OccursBeforeEnd(init, f, j);
    } else {
      AbsentKeyFirstPos(init, f, f(last));
    }
  }

  /** A key without a bucket occurs nowhere in the input. */
  lemma AbsentKeyFirstPos(xs: seq<string>, f: string -> string, k: string)
    ensures FindKey(GroupBy(xs, f), k).None? ==> FirstPos(xs, f, k) == |xs|
  {
    GroupByKeys(xs, f, k);
    assert forall q :: 0 <= q < |xs| ==> xs[q] in xs;
  }

  /** A key that has a bucket in the grouping of `xs` first occurs strictly inside `xs`. */
  lemma OccursBeforeEnd(xs: seq<string>, f: string -> string, i: nat)
    ensures i < |GroupBy(xs, f)| ==> FirstPos(xs, f, GroupBy(xs, f)[i].key) < |xs|
  {
    var g := GroupBy(xs, f);
    if i < |g| {
      GroupByShape(xs, f);
      FindKeyFirst(g, g[i].key, i);
      GroupByKeys(xs, f, g[i].key);
      var x :| x in xs && f(x) == g[i].key;
      var q :| 0 <= q < |xs| && xs[q] == x;
    }
  }

  /** Each value of the input lands in exactly one bucket: the one of its own key. */
  lemma PathInExactlyOneBucket(xs: seq<string>, f: string -> string, x: string)
    requires x in xs
    ensures var g := GroupBy(xs, f);
      exists i :: 0 <= i < |g| && g[i].key == f(x) && x in g[i].items &&
        forall j :: 0 <= j < |g| && x in g[j].items ==> j == i
  {
    var g := GroupBy(xs, f);
    GroupByShape(xs, f);
    GroupByKeys(xs, f, f(x));
    GroupByContents(xs, f, f(x));
    var i := FindKey(g, f(x)).value;
    assert x in g[i].items;
    forall j | 0 <= j < |g| && x in g[j].items ensures j == i {
      FindKeyFirst(g, g[j].key, j);
      GroupByContents(xs, f, g[j].key);
    }
  }

  // ---------------------------------------------------------------------------
  // Files by extension, then by directory

  /** One extension of `files_by_ext` with its `files_by_dir`. */
  datatype ExtGroup = ExtGroup(ext: string, dirs: seq<Bucket>)

  /**
   The two nested groupings of `process_code_files`: by lower-cased extension, then
   by directory. Extensions are distinct; under each one the directory buckets are
   non-empty (so the `if not files: continue` guard never fires) and distinct, and
   each holds exactly the walked paths with its extension and directory, in walk
   order; every walked path lies in the bucket of its own extension and directory.
   */
  function GroupFiles(paths: seq<string>): (r: seq<ExtGroup>)
    ensures forall i, i' :: 0 <= i < i' < |r| ==> r[i].ext != r[i'].ext
    ensures forall i :: 0 <= i < |r| ==>
      r[i].dirs != [] && DistinctKeys(r[i].dirs) && NoEmptyBucket(r[i].dirs)
    ensures forall i, j :: 0 <= i < |r| && 0 <= j < |r[i].dirs| ==>
      r[i].dirs[j].items == Select(Select(paths, FileHelpers.LowerExt, r[i].ext), Dirname, r[i].dirs[j].key)
    ensures forall x :: x in paths ==> InOwnBucket(r, x)
  {
    var r := ByDir(GroupBy(paths, FileHelpers.LowerExt));
    NestedBuckets(paths, r);
    forall x | x in paths {
      NestedCover(paths, x);
    }
    r
  }

  /** `x` lies in the directory bucket of its own extension and its own directory. */
  predicate InOwnBucket(r: seq<ExtGroup>, x: string) {
    exists i, j :: 0 <= i < |r| && 0 <= j < |r[i].dirs| &&
      r[i].ext == FileHelpers.LowerExt(x) && r[i].dirs[j].key == Dirname(x) && x in r[i].dirs[j].items
  }

  /** Each extension bucket with its own files grouped by directory. */
  function ByDir(byExt: seq<Bucket>): seq<ExtGroup> {
    seq(|byExt|, i requires 0 <= i < |byExt| => ExtGroup(byExt[i].key, GroupBy(byExt[i].items, Dirname)))
  }

  lemma NestedBuckets(paths: seq<string>, r: seq<ExtGroup>)
    requires r == ByDir(GroupBy(paths, FileHelpers.LowerExt))
    ensures && (forall i, i' :: 0 <= i < i' < |r| ==> r[i].ext != r[i'].ext)
      && forall i :: 0 <= i < |r| ==>
           && r[i].dirs != [] && DistinctKeys(r[i].dirs) && NoEmptyBucket(r[i].dirs)
           && forall j :: 0 <= j < |r[i].dirs| ==>
                r[i].dirs[j].items == Select(Select(paths, FileHelpers.LowerExt, r[i].ext), Dirname, r[i].dirs[j].key)
  {
    GroupByShape(paths, FileHelpers.LowerExt);
    forall i | 0 <= i < |r|
      ensures && r[i].dirs != [] && DistinctKeys(r[i].dirs) && NoEmptyBucket(r[i].dirs)
              && forall j :: 0 <= j < |r[i].dirs| ==>
                   r[i].dirs[j].items == Select(Select(paths, FileHelpers.LowerExt, r[i].ext), Dirname, r[i].dirs[j].key)
    {
      ExtDirBuckets(paths, i);
    }
  }

  lemma NestedCover(paths: seq<string>, x: string)
    requires x in paths
    ensures InOwnBucket(ByDir(GroupBy(paths, FileHelpers.LowerExt)), x)
  {
    var byExt := GroupBy(paths, FileHelpers.LowerExt);
    var r := ByDir(byExt);
    PathInExactlyOneBucket(paths, FileHelpers.LowerExt, x);
    var i :| 0 <= i < |byExt| && byExt[i].key == FileHelpers.LowerExt(x) && x in byExt[i].items;
    var d := GroupBy(byExt[i].items, Dirname);
    PathInExactlyOneBucket(byExt[i].items, Dirname, x);
    var j :| 0 <= j < |d| && d[j].key == Dirname(x) && x in d[j].items;
    assert |r| == |byExt| && r[i] == ExtGroup(byExt[i].key, d);
  }

  /** The extension bucket at position `i` holds exactly the walked paths with its extension. */
  lemma ExtBucketContents(paths: seq<string>, i: nat)
    requires i < |GroupBy(paths, FileHelpers.LowerExt)|
    ensures var b := GroupBy(paths, FileHelpers.LowerExt)[i];
      b.items == Select(paths, FileHelpers.LowerExt, b.key)
  {
    var byExt := GroupBy(paths, FileHelpers.LowerExt);
    GroupByShape(paths, FileHelpers.LowerExt);
    FindKeyFirst(byExt, byExt[i].key, i);
    GroupByContents(paths, FileHelpers.LowerExt, byExt[i].key);
  }

  /** The directory grouping of extension bucket `i`: non-empty, distinct, and each bucket exactly its paths. */
  lemma ExtDirBuckets(paths: seq<string>, i: nat)
    requires i < |GroupBy(paths, FileHelpers.LowerExt)|
    ensures var b := GroupBy(paths, FileHelpers.LowerExt)[i];
      var d := GroupBy(b.items, Dirname);
      && d != [] && DistinctKeys(d) && NoEmptyBucket(d)
      && forall j :: 0 <= j < |d| ==>
           d[j].items == Select(Select(paths, FileHelpers.LowerExt, b.key), Dirname, d[j].key)
  {
    var byExt := GroupBy(paths, FileHelpers.LowerExt);
    GroupByShape(paths, FileHelpers.LowerExt);
    ExtBucketContents(paths, i);
    var files := byExt[i].items;
    var d := GroupBy(files, Dirname);
    GroupByShape(files, Dirname);
    assert Total(d) == |files| > 0;
    forall j | 0 <= j < |d|
      ensures d[j].items == Select(files, Dirname, d[j].key)
    {
      FindKeyFirst(d, d[j].key, j);
      GroupByContents(files, Dirname, d[j].key);
    }
  }

  /**
   Deciding on `files[0]` decides for the whole bucket: every file of an extension
   bucket gets the same answer from the parser helper.
   */
  lemma ParserDecisionUniform(paths: seq<string>, i: nat, j: nat)
    ensures var r := GroupFiles(paths);
      i < |r| && j < |r[i].dirs| ==>
        && r[i].dirs[j].items != []
        && forall x :: x in r[i].dirs[j].items ==>
             LegacyHelpers.GetLanguageParser(x) == LegacyHelpers.GetLanguageParser(r[i].dirs[j].items[0])
  {
    var r := GroupFiles(paths);
    if i < |r| && j < |r[i].dirs| {
      var files := r[i].dirs[j].items;
      var sameExt := Select(paths, FileHelpers.LowerExt, r[i].ext);
      assert files == Select(sameExt, Dirname, r[i].dirs[j].key);
      assert files[0] in files;
      forall x | x in files
        ensures LegacyHelpers.GetLanguageParser(x) == LegacyHelpers.GetLanguageParser(files[0])
      {
        assert x in sameExt && files[0] in sameExt;
        SameExtensionSameParser(x, files[0]);
      }
    }
  }

  lemma SameExtensionSameParser(x: string, y: string)
    requires FileHelpers.LowerExt(x) == FileHelpers.LowerExt(y)
    ensures LegacyHelpers.GetLanguageParser(x) == LegacyHelpers.GetLanguageParser(y)
  {
  }
}
