/**
 * The snippet files both generators read from one directory, and the order
 * they are processed in: `sorted(...)` over the directory's paths. All the
 * paths share the directory, so a snippet is identified by its file name and
 * the paths compare as their names do, character by character on code
 * points, a proper prefix first.
 */
module SnippetFiles {
  import opened Wrappers
  import opened Text
  import opened LpSplice

  /** One snippet file: its name inside the directory and its lines as `splitlines()` yields them. */
  datatype Snippet = Snippet(name: string, lines: seq<string>)

  /** One written output: its file name inside the output directory and its lines. */
  datatype OutFile = OutFile(name: string, lines: seq<string>)

  /** Python's `<=` on strings. */
  predicate NameLeq(a: string, b: string)
  {
    a == [] || (b != [] && (a[0] < b[0] || (a[0] == b[0] && NameLeq(a[1..], b[1..]))))
  }

  lemma {:induction false} NameLeqTotal(a: string, b: string)
    ensures NameLeq(a, b) || NameLeq(b, a)
  {
    if a != [] && b != [] && a[0] == b[0] {
      NameLeqTotal(a[1..], b[1..]);
    }
  }

  lemma {:induction false} NameLeqTransitive(a: string, b: string, c: string)
    requires NameLeq(a, b) && NameLeq(b, c)
    ensures NameLeq(a, c)
  {
    if a != [] && b != [] && c != [] && a[0] == b[0] == c[0] {
      NameLeqTransitive(a[1..], b[1..], c[1..]);
    }
  }

  ghost predicate SortedByName(xs: seq<Snippet>)
  {
    forall i, j :: 0 <= i < j < |xs| ==> NameLeq(xs[i].name, xs[j].name)
  }

  /** `x` inserted into the sorted `xs` before the first element whose key is above its own. */
  function Insert(x: Snippet, xs: seq<Snippet>): (r: seq<Snippet>)
    ensures multiset(r) == multiset(xs) + multiset{x}
    ensures |r| == |xs| + 1
  {
    if xs == [] then [x]
    else if NameLeq(x.name, xs[0].name) then [x] + xs
    else
      assert xs == [xs[0]] + xs[1..];
      [xs[0]] + Insert(x, xs[1..])
  }

  /** `sorted(paths)`, by insertion. */
  function SortByName(xs: seq<Snippet>): (r: seq<Snippet>)
    ensures multiset(r) == multiset(xs) && |r| == |xs|
  {
    if xs == [] then []
    else
      assert xs == [xs[0]] + xs[1..];
      Insert(xs[0], SortByName(xs[1..]))
  }

  lemma {:induction false} InsertSorted(x: Snippet, xs: seq<Snippet>)
    requires SortedByName(xs)
    ensures SortedByName(Insert(x, xs))
    decreases |xs|
  {
    if xs != [] && !NameLeq(x.name, xs[0].name) {
      NameLeqTotal(x.name, xs[0].name);
      InsertSorted(x, xs[1..]);
      var tail := xs[1..];
      assert forall k :: 0 <= k < |tail| ==> tail[k] == xs[k + 1];
      InsertAbove(xs[0].name, x, tail);
      ConsSorted(xs[0], Insert(x, tail));
    } else if xs != [] {
      forall i, j | 0 <= i < j < |xs| + 1
        ensures NameLeq(([x] + xs)[i].name, ([x] + xs)[j].name)
      {
        if i == 0 && j > 1 {
          NameLeqTransitive(x.name, xs[0].name, xs[j - 1].name);
        }
      }
    }
  }

  /** Inserting a name at or above `lo` into names at or above `lo` keeps them all at or above `lo`. */
  lemma InsertAbove(lo: string, x: Snippet, xs: seq<Snippet>)
    requires NameLeq(lo, x.name) && forall k :: 0 <= k < |xs| ==> NameLeq(lo, xs[k].name)
    ensures forall k :: 0 <= k < |Insert(x, xs)| ==> NameLeq(lo, Insert(x, xs)[k].name)
  {
    var r := Insert(x, xs);
    forall k | 0 <= k < |r|
      ensures NameLeq(lo, r[k].name)
    {
      assert r[k] in multiset(xs) + multiset{x};
      if r[k] != x {
        assert r[k] in xs;
      }
    }
  }

  /** A name at or below every name of a sorted list can go in front of it. */
  lemma ConsSorted(y: Snippet, r: seq<Snippet>)
    requires SortedByName(r) && forall k :: 0 <= k < |r| ==> NameLeq(y.name, r[k].name)
    ensures SortedByName([y] + r)
  {
    forall i, j | 0 <= i < j < |r| + 1
      ensures NameLeq(([y] + r)[i].name, ([y] + r)[j].name)
    {
      if i == 0 {
        assert ([y] + r)[j] == r[j - 1];
      } else {
        assert ([y] + r)[i] == r[i - 1] && ([y] + r)[j] == r[j - 1];
      }
    }
  }

  /** The snippets are processed in ascending order of their names, each exactly once. */
  lemma {:induction false} SortByNameSorts(xs: seq<Snippet>)
    ensures SortedByName(SortByName(xs)) && multiset(SortByName(xs)) == multiset(xs)
  {
    if xs != [] {
      SortByNameSorts(xs[1..]);
      InsertSorted(xs[0], SortByName(xs[1..]));
    }
  }

  /** The file written for one snippet: the snippet's stem plus `suffix`, holding the spliced base. */
  function Output(base: seq<string>, at: nat, snip: Snippet, suffix: string): (r: OutFile)
    requires at <= |base|
    ensures FindBinary(base) == Some(at) ==> Splice(base, snip.lines) == Success(r.lines)
  {
    OutFile(Stem(snip.name) + suffix, Inserted(base, at, Block(Constraints(snip.lines))))
  }

  /** The files written for `sorted`, one per snippet, in the same order. */
  function Outputs(base: seq<string>, at: nat, sorted: seq<Snippet>, suffix: string): (r: seq<OutFile>)
    requires at <= |base|
    ensures |r| == |sorted|
  {
    if sorted == [] then []
    else Outputs(base, at, sorted[..|sorted| - 1], suffix) + [Output(base, at, sorted[|sorted| - 1], suffix)]
  }

  /**
   * The `i`-th output belongs to the `i`-th snippet: it is named after the
   * snippet's stem and holds the splice of that snippet into the base.
   */
  lemma {:induction false} OutputsInOrder(base: seq<string>, at: nat, sorted: seq<Snippet>, suffix: string, i: nat)
    requires at <= |base| && i < |sorted|
    ensures Outputs(base, at, sorted, suffix)[i] == Output(base, at, sorted[i], suffix)
    ensures Outputs(base, at, sorted, suffix)[i].name == Stem(sorted[i].name) + suffix
    ensures FindBinary(base) == Some(at) ==> Splice(base, sorted[i].lines) == Success(Outputs(base, at, sorted, suffix)[i].lines)
    decreases |sorted|
  {
    if i < |sorted| - 1 {
      OutputsInOrder(base, at, sorted[..|sorted| - 1], suffix, i);
    }
  }

  /**
   * One pass of the loop body: drop a leading `Subject To`, filter, build
   * the block, insert it into a fresh copy of the base, and name the output
   * after the snippet's stem.
   */
  method SpliceOne(base: seq<string>, at: nat, snip: Snippet, suffix: string) returns (out: OutFile)
    requires at <= |base|
    ensures out == Output(base, at, snip, suffix)
  {
    var lines := snip.lines;
    if lines != [] && IsSubjectToHeader(lines[0]) {
      lines := lines[1..];
    }
    var constraints := Filter(lines);
    var block := Block(constraints);
    var merged := Merge(base, at, block);
    out := OutFile(Stem(snip.name) + suffix, merged);
  }

  /** One more snippet adds its own output at the end. */
  lemma OutputsSnoc(base: seq<string>, at: nat, sorted: seq<Snippet>, suffix: string, i: nat)
    requires at <= |base| && i < |sorted|
    ensures Outputs(base, at, sorted[..i + 1], suffix) == Outputs(base, at, sorted[..i], suffix) + [Output(base, at, sorted[i], suffix)]
  {
    assert sorted[..i + 1][..i] == sorted[..i] && sorted[..i + 1][i] == sorted[i];
  }

  /** The loop over the sorted snippets shared by both generators. */
  method SpliceAll(base: seq<string>, at: nat, sorted: seq<Snippet>, suffix: string) returns (outs: seq<OutFile>)
    requires at <= |base|
    ensures outs == Outputs(base, at, sorted, suffix)
  {
    outs := [];
    for i := 0 to |sorted|
      invariant outs == Outputs(base, at, sorted[..i], suffix)
    {
      var out := SpliceOne(base, at, sorted[i], suffix);
      OutputsSnoc(base, at, sorted, suffix, i);
      outs := outs + [out];
    }
    assert sorted[..|sorted|] == sorted;
  }
}
