/**
 * The splice both snippet generators perform (src/gen_files_with_sbs.py and
 * src/gen_files_with_sb_nonlinear.py): find the `Binary` header of the base
 * LP, clean a snippet's lines into constraints, and insert them, followed by
 * one blank line, right before that header.
 *
 * Base lines keep their line ends (`splitlines(keepends=True)`); snippet
 * lines do not (`splitlines()`).
 */
module LpSplice {
  import opened Wrappers
  import opened Text

  /** The trimmed line, lower-cased, is exactly `binary`. */
  predicate IsBinaryHeader(ln: string)
  {
    LowerAscii(StripSpace(ln)) == "binary"
  }

  /** The trimmed line, lower-cased, is exactly `subject to`. */
  predicate IsSubjectToHeader(ln: string)
  {
    LowerAscii(StripSpace(ln)) == "subject to"
  }

  /** The index of the first line at or after `i` that `header` accepts. */
  function FindFrom(header: string -> bool, base: seq<string>, i: nat): (r: Option<nat>)
    requires i <= |base|
    decreases |base| - i
    ensures r.Some? ==> i <= r.value < |base| && header(base[r.value])
                        && forall j :: i <= j < r.value ==> !header(base[j])
    ensures r.None? ==> forall j :: i <= j < |base| ==> !header(base[j])
  {
    if i == |base| then None
    else if header(base[i]) then Some(i)
    else FindFrom(header, base, i + 1)
  }

  /** `insert_at`: the first `Binary` header of the base LP, if any. */
  function FindBinary(base: seq<string>): (r: Option<nat>)
    ensures r.Some? ==> r.value < |base| && IsBinaryHeader(base[r.value])
                        && forall j :: 0 <= j < r.value ==> !IsBinaryHeader(base[j])
    ensures r.None? <==> forall j :: 0 <= j < |base| ==> !IsBinaryHeader(base[j])
  {
    FindFrom(IsBinaryHeader, base, 0)
  }

  /** The snippet without a leading `Subject To` header line. */
  function DropSubjectTo(lines: seq<string>): seq<string>
  {
    if lines != [] && IsSubjectToHeader(lines[0]) then lines[1..] else lines
  }

  /** A snippet line is kept when it is not blank and, left-trimmed, does not start with a backslash (an LP comment). */
  predicate KeepLine(ln: string)
  {
    var l := LStripSpace(ln);
    StripSpace(ln) != "" && !(l != [] && l[0] == '\\')
  }

  /** The lines that pass `KeepLine`, in their original order. */
  function Filter(lines: seq<string>): (r: seq<string>)
    ensures |r| <= |lines|
    ensures forall ln :: ln in r <==> ln in lines && KeepLine(ln)
  {
    if lines == [] then []
    else Filter(lines[..|lines| - 1]) + (if KeepLine(lines[|lines| - 1]) then [lines[|lines| - 1]] else [])
  }

  /** The constraints a snippet contributes. */
  function Constraints(snippet: seq<string>): seq<string>
  {
    Filter(DropSubjectTo(snippet))
  }

  /** Each constraint on its own line, then one blank line. */
  function Block(constraints: seq<string>): (r: seq<string>)
    ensures |r| == |constraints| + 1 && r[|constraints|] == "\n"
    ensures forall i :: 0 <= i < |constraints| ==>
              |r[i]| > 0 && r[i][|r[i]| - 1] == '\n' && r[i][..|r[i]| - 1] == TrimRight(constraints[i], {'\n'})
  {
    seq(|constraints|, i requires 0 <= i < |constraints| => TrimRight(constraints[i], {'\n'}) + "\n") + ["\n"]
  }

  /** Snippet lines come from `splitlines()` and hold no line end, so each block line is the constraint plus one. */
  lemma BlockOfSplitLines(constraints: seq<string>)
    requires forall i :: 0 <= i < |constraints| ==> '\n' !in constraints[i]
    ensures Block(constraints) == seq(|constraints|, i requires 0 <= i < |constraints| => constraints[i] + "\n") + ["\n"]
  {
  }

  /** The insertion `merged[at:at] = block` on a copy of `base`. */
  function Inserted(base: seq<string>, at: nat, block: seq<string>): (r: seq<string>)
    requires at <= |base|
    ensures |r| == |base| + |block|
    ensures r[..at] == base[..at] && r[at..at + |block|] == block && r[at + |block|..] == base[at..]
  {
    base[..at] + block + base[at..]
  }

  /** The errors the splice reports. */
  datatype SpliceError = NoBinarySection

  /** The merged lines for one snippet, or the error when the base has no `Binary` header. */
  function Splice(base: seq<string>, snippet: seq<string>): Result<seq<string>, SpliceError>
  {
    match FindBinary(base)
    case None => Failure(NoBinarySection)
    case Some(at) => Success(Inserted(base, at, Block(Constraints(snippet))))
  }

  /** The in-place insertion on the copied list, as the source performs it. */
  method Merge(base: seq<string>, at: nat, block: seq<string>) returns (merged: seq<string>)
    requires at <= |base|
    ensures merged == Inserted(base, at, block)
  {
    merged := base;
    merged := merged[..at] + block + merged[at..];
  }

  /** Filtering a concatenation filters each part: the kept lines stay in their original order. */
  lemma {:induction false} FilterConcat(a: seq<string>, b: seq<string>)
    ensures Filter(a + b) == Filter(a) + Filter(b)
    decreases |b|
  {
    if b == [] {
      assert a + b == a;
    } else {
      var b' := b[..|b| - 1];
      FilterConcat(a, b');
      assert (a + b)[..|a + b| - 1] == a + b';
      assert (a + b)[|a + b| - 1] == b[|b| - 1];
    }
  }

  /** Only the first line can be taken as the `Subject To` header; later ones pass through the filter like any line. */
  lemma {:induction false} OnlyLeadingHeaderDropped(first: string, rest: seq<string>)
    ensures Constraints([first] + rest) ==
              (if IsSubjectToHeader(first) then [] else Filter([first])) + Filter(rest)
  {
    FilterConcat([first], rest);
    if IsSubjectToHeader(first) {
      assert ([first] + rest)[1..] == rest;
    }
  }

  /**
   * A successful splice puts the block right before the first `Binary`
   * header: the base lines before it, one line per kept constraint, the
   * blank line, then the header and every base line after it, unchanged.
   * Cutting the block out again gives back the base.
   */
  lemma {:induction false} SpliceLayout(base: seq<string>, snippet: seq<string>)
    ensures Splice(base, snippet).Success? <==> exists j :: 0 <= j < |base| && IsBinaryHeader(base[j])
    ensures Splice(base, snippet).Success? ==>
              var m := Splice(base, snippet).value;
              var at := FindBinary(base).value;
              var c := Constraints(snippet);
              |m| == |base| + |c| + 1
              && m[..at] == base[..at]
              && m[at + |c|] == "\n"
              && IsBinaryHeader(m[at + |c| + 1])
              && m[..at] + m[at + |c| + 1..] == base
  {
    match FindBinary(base)
    case None =>
    case Some(at) =>
      var b := Block(Constraints(snippet));
      InsertedAround(base, at, b);
  }

  /** Inserting a block before line `at` keeps the lines before it, puts line `at` right after it, and cutting it out gives the base back. */
  lemma InsertedAround(base: seq<string>, at: nat, block: seq<string>)
    requires at < |base| && block != []
    ensures var m := Inserted(base, at, block);
            m[at + |block| - 1] == block[|block| - 1]
            && m[at + |block|] == base[at]
            && m[..at] + m[at + |block|..] == base
  {
    var m := Inserted(base, at, block);
    assert m[at + |block| - 1] == m[at..at + |block|][|block| - 1];
    assert m[at + |block|] == m[at + |block|..][0];
    assert base[..at] + base[at..] == base;
  }
}