/**
 * src/bin_packing_problem_generator.py: a "hard" bin-packing instance whose
 * item sizes cluster around half the capacity, and its MILP in LP format.
 *
 * The random generator is an oracle: `pick(t)` is the index `rng.choice`
 * draws for the `t`-th item, taken modulo the number of candidate values.
 * The file text is the sequence of strings the writer passes to `f.write`,
 * in order.
 */
module BinPacking {
  import opened Wrappers
  import opened Text

  // ---------------------------------------------------------------------
  // hard_half_capacity_classes_instance
  // ---------------------------------------------------------------------

  /** Python's `list(range(lo, hi))`. */
  function Range(lo: int, hi: int): (r: seq<int>)
    ensures |r| == if hi <= lo then 0 else hi - lo
    ensures forall i :: 0 <= i < |r| ==> r[i] == lo + i
  {
    if hi <= lo then [] else seq(hi - lo, i => lo + i)
  }

  /**
   * The size classes before filtering: `classes` consecutive integers around
   * `B // 2`. Python's `//` and `%` by 2 floor, and so do Dafny's for a
   * positive divisor.
   */
  function ClassValues(B: int, classes: int): (r: seq<int>)
    ensures classes >= 1 ==> |r| == classes && (forall i :: 0 <= i < |r| ==> r[i] == r[0] + i) && B / 2 in r
    ensures classes <= 0 ==> r == []
  {
    var half := B / 2;
    if classes % 2 == 1 then
      var k := classes / 2;
      var r := Range(half - k, half + k + 1);
      assert classes >= 1 ==> r[k] == half;
      r
    else
      var k := classes / 2 - 1;
      var r := Range(half - k, half + classes / 2 + 1);
      assert classes >= 1 ==> r[k] == half;
      r
  }

  /** `[v for v in values if 1 <= v <= B - 1]`. */
  function Filtered(values: seq<int>, B: int): (r: seq<int>)
    ensures forall v :: v in r <==> v in values && 1 <= v <= B - 1
  {
    if values == [] then []
    else
      var v := values[|values| - 1];
      Filtered(values[..|values| - 1], B) + (if 1 <= v <= B - 1 then [v] else [])
  }

  /** With `B >= 2` the half capacity survives the filter, so `rng.choice` always has a value to draw. */
  lemma HalfSurvives(B: int, classes: int)
    requires B >= 2 && classes >= 1
    ensures B / 2 in Filtered(ClassValues(B, classes), B)
    ensures |Filtered(ClassValues(B, classes), B)| > 0
  {
  }

  /** The `ValueError` messages, in the order the arguments are checked. */
  const BadItems := "--n must be positive"
  const BadCapacity := "--B must be at least 2"
  const BadClasses := "--classes must be positive"

  /** `hard_half_capacity_classes_instance(n, B, classes, seed)` with the draws of `random.Random(seed + n)` as `pick`. */
  function Instance(n: int, B: int, classes: int, pick: nat -> nat): (r: Result<seq<int>, string>)
    ensures n <= 0 ==> r == Failure(BadItems)
    ensures n > 0 && B <= 1 ==> r == Failure(BadCapacity)
    ensures n > 0 && B > 1 && classes <= 0 ==> r == Failure(BadClasses)
    ensures n > 0 && B > 1 && classes > 0 ==>
              r.Success? && |r.value| == n
              && forall t :: 0 <= t < n ==> r.value[t] in Filtered(ClassValues(B, classes), B) && 1 <= r.value[t] <= B - 1
  {
    if n <= 0 then Failure(BadItems)
    else if B <= 1 then Failure(BadCapacity)
    else if classes <= 0 then Failure(BadClasses)
    else
      HalfSurvives(B, classes);
      var values := Filtered(ClassValues(B, classes), B);
      assert forall t :: 0 <= t < n ==> pick(t) % |values| < |values| && values[pick(t) % |values|] in values;
      Success(seq(n, t requires 0 <= t => values[pick(t) % |values|]))
  }

  // ---------------------------------------------------------------------
  // sizes.sort()
  // ---------------------------------------------------------------------

  predicate Sorted(s: seq<int>)
  {
    forall i, j :: 0 <= i < j < |s| ==> s[i] <= s[j]
  }

  /** `sizes.sort()`: ascending, in place (by insertion). */
  method SortInPlace(a: array<int>)
    modifies a
    ensures Sorted(a[..])
    ensures multiset(a[..]) == multiset(old(a[..]))
  {
    for i := 0 to a.Length
      invariant forall p, q :: 0 <= p < q < i ==> a[p] <= a[q]
      invariant multiset(a[..]) == multiset(old(a[..]))
    {
      SinkLast(a, i);
    }
    assert forall p, q :: 0 <= p < q < a.Length ==> a[..][p] <= a[..][q];
  }

  /** One insertion step: `a[i]` moves down into the sorted prefix `a[..i]`. */
  method SinkLast(a: array<int>, i: nat)
    requires i < a.Length
    requires forall p, q :: 0 <= p < q < i ==> a[p] <= a[q]
    modifies a
    ensures forall p, q :: 0 <= p < q <= i ==> a[p] <= a[q]
    ensures multiset(a[..]) == multiset(old(a[..]))
    ensures a[i + 1..] == old(a[i + 1..])
  {
    var j := i;
    while j > 0 && a[j - 1] > a[j]
      invariant 0 <= j <= i
      invariant a[i + 1..] == old(a[i + 1..])
      invariant forall p, q :: 0 <= p < q <= i && p != j && q != j ==> a[p] <= a[q]
      invariant forall q :: j < q <= i ==> a[j] < a[q]
      invariant 0 < j < i ==> a[j - 1] <= a[j + 1]
      invariant multiset(a[..]) == multiset(old(a[..]))
    {
      Swap(a, j - 1, j);
      j := j - 1;
    }
  }

  /** Exchanges two elements; nothing else changes and the multiset of elements is kept. */
  method Swap(a: array<int>, p: nat, q: nat)
    requires p < q < a.Length
    modifies a
    ensures a[p] == old(a[q]) && a[q] == old(a[p])
    ensures forall k :: 0 <= k < a.Length && k != p && k != q ==> a[k] == old(a[k])
    ensures multiset(a[..]) == multiset(old(a[..]))
  {
    a[p], a[q] := a[q], a[p];
  }

  // ---------------------------------------------------------------------
  // write_binpacking_lp
  // ---------------------------------------------------------------------

  /** `y(j)`. */
  function Y(j: nat): string
  {
    "y_" + NatToString(j)
  }

  /** `x(i, j)`. */
  function X(i: nat, j: nat): string
  {
    "x_" + NatToString(i) + "_" + NatToString(j)
  }

  /** `str(sizes)` for a list of integers. */
  function ListRepr(xs: seq<int>): string
  {
    "[" + Join(seq(|xs|, i requires 0 <= i < |xs| => IntToString(xs[i])), ", ") + "]"
  }

  /** The two comment lines that open the file. */
  function Header(sizes: seq<int>, B: int): seq<string>
  {
    ["\\ Bin Packing MILP (LP format)\n",
     "\\ B=" + IntToString(B) + ", n=" + NatToString(|sizes|) + ", sizes=" + ListRepr(sizes) + "\n\n"]
  }

  /** The objective: the sum of all bin variables. */
  function ObjectiveLine(n: nat): string
  {
    " obj: " + Join(seq(n, j requires 0 <= j => Y(j)), " + ") + "\n\n"
  }

  /** Item `i` goes into exactly one bin. */
  function AssignRow(i: nat, n: nat): string
  {
    " assign_" + NatToString(i) + ": " + Join(seq(n, j requires 0 <= j => X(i, j)), " + ") + " = 1\n"
  }

  /** The left-hand side of bin `j`'s capacity row: each item's size times its variable. */
  function CapTerms(j: nat, sizes: seq<int>): string
  {
    Join(seq(|sizes|, i requires 0 <= i < |sizes| => IntToString(sizes[i]) + " " + X(i, j)), " + ")
  }

  /** Bin `j` holds at most `B` when used: `lhs - B y_j <= 0`, with `0` for an empty `lhs`. */
  function CapRow(j: nat, sizes: seq<int>, B: int): string
  {
    var lhs := CapTerms(j, sizes);
    " cap_" + NatToString(j) + ": " + (if lhs == "" then "0" else lhs) + " - " + IntToString(B) + " " + Y(j) + " <= 0\n"
  }

  function YLine(j: nat): string
  {
    " " + Y(j) + "\n"
  }

  function XLine(i: nat, j: nat): string
  {
    " " + X(i, j) + "\n"
  }

  /** `acc` followed by `line(0)`, ..., `line(k - 1)`: what a `for` loop over `range(k)` appends. */
  function Lines(acc: seq<string>, k: nat, line: nat -> string): (r: seq<string>)
    ensures |r| == |acc| + k
  {
    if k == 0 then acc else Lines(acc, k - 1, line) + [line(k - 1)]
  }

  /** The loop keeps what was written before it. */
  lemma {:induction false} LinesKeep(acc: seq<string>, k: nat, line: nat -> string, i: nat)
    requires i < |acc|
    ensures Lines(acc, k, line)[i] == acc[i]
  {
    if k > 0 {
      LinesKeep(acc, k - 1, line, i);
    }
  }

  /** The loop's `i`-th line is `line(i)`. */
  lemma {:induction false} LinesAt(acc: seq<string>, k: nat, line: nat -> string, i: nat)
    requires i < k
    ensures Lines(acc, k, line)[|acc| + i] == line(i)
  {
    if i < k - 1 {
      LinesAt(acc, k - 1, line, i);
    }
  }

  function AssignLine(n: nat): nat -> string
  {
    (i: nat) => AssignRow(i, n)
  }

  function CapLine(sizes: seq<int>, B: int): nat -> string
  {
    (j: nat) => CapRow(j, sizes, B)
  }

  function XLineOf(i: nat): nat -> string
  {
    (j: nat) => XLine(i, j)
  }

  /** `acc` followed by the `x` lines of the first `k` items, item by item, each item's bins in order. */
  function XRows(acc: seq<string>, n: nat, k: nat): (r: seq<string>)
    ensures |r| == |acc| + Area(k, n)
  {
    if k == 0 then acc else Lines(XRows(acc, n, k - 1), n, XLineOf(k - 1))
  }

  /** `k * n`, one row of `n` at a time. */
  function Area(k: nat, n: nat): nat
  {
    if k == 0 then 0 else Area(k - 1, n) + n
  }

  lemma {:induction false} AreaIsProduct(k: nat, n: nat)
    ensures Area(k, n) == k * n
  {
    if k > 0 {
      AreaIsProduct(k - 1, n);
    }
  }

  /** Item `i < k`, bin `j < n` lies inside the first `k` rows, past the first `i` rows. */
  lemma {:induction false} RowMajorOffset(k: nat, n: nat, i: nat, j: nat)
    requires i < k && j < n
    ensures Area(i, n) + j < Area(k, n)
  {
    if i < k - 1 {
      RowMajorOffset(k - 1, n, i, j);
    }
  }

  /** The offset of item `i`, bin `j` among the `n * n` item variables. */
  function Cell(n: nat, i: nat, j: nat): (r: nat)
    requires i < n && j < n
    ensures r < Area(n, n)
  {
    RowMajorOffset(n, n, i, j);
    Area(i, n) + j
  }

  /** The offsets are row-major: `i * n + j`. */
  lemma CellIsRowMajor(n: nat, i: nat, j: nat)
    requires i < n && j < n
    ensures Cell(n, i, j) == i * n + j
  {
    AreaIsProduct(i, n);
  }

  /** `XRows` keeps what was written before it. */
  lemma {:induction false} XRowsKeep(acc: seq<string>, n: nat, k: nat, i: nat)
    requires i < |acc|
    ensures XRows(acc, n, k)[i] == acc[i]
  {
    if k > 0 {
      XRowsKeep(acc, n, k - 1, i);
      LinesKeep(XRows(acc, n, k - 1), n, XLineOf(k - 1), i);
    }
  }

  /** In `XRows`, the line of item `i` and bin `j` follows `acc` at offset `i * n + j`: row-major order. */
  lemma {:induction false} XRowsRowMajor(acc: seq<string>, n: nat, k: nat, i: nat, j: nat)
    requires i < k && j < n
    ensures Area(i, n) + j < Area(k, n) && XRows(acc, n, k)[|acc| + Area(i, n) + j] == XLine(i, j)
  {
    RowMajorOffset(k, n, i, j);
    var prev := XRows(acc, n, k - 1);
    if i < k - 1 {
      RowMajorOffset(k - 1, n, i, j);
      XRowsRowMajor(acc, n, k - 1, i, j);
      LinesKeep(prev, n, XLineOf(k - 1), |acc| + Area(i, n) + j);
    } else {
      LinesAt(prev, n, XLineOf(k - 1), j);
    }
  }

  /**
   * The file after the opening lines `top`: the `n` assignment rows made by
   * `assign`, the `n` capacity rows made by `cap`, `Binary`, the bin
   * variables, the item variables and `End`.
   */
  function Body(top: seq<string>, n: nat, assign: nat -> string, cap: nat -> string): (r: seq<string>)
    ensures |r| == |top| + 2 + 3 * n + Area(n, n)
  {
    var rows := Lines(Lines(top, n, assign), n, cap) + ["\nBinary\n"];
    XRows(Lines(rows, n, YLine), n, n) + ["End\n"]
  }

  /** The comment lines, the objective and `Subject To`. */
  function Top(sizes: seq<int>, B: int): (r: seq<string>)
    ensures |r| == 5
  {
    Header(sizes, B) + ["Minimize\n", ObjectiveLine(|sizes|)] + ["Subject To\n"]
  }

  /** Everything the writer emits for `sizes` and capacity `B`, in order: `7 + 3n + n * n` chunks. */
  function LpChunks(sizes: seq<int>, B: int): (r: seq<string>)
    ensures |r| == 7 + 3 * |sizes| + |sizes| * |sizes|
  {
    AreaIsProduct(|sizes|, |sizes|);
    Body(Top(sizes, B), |sizes|, AssignLine(|sizes|), CapLine(sizes, B))
  }

  /** `write_binpacking_lp(sizes, B, path)`: the writes, in the order of the source's loops. */
  method WriteBinPackingLp(sizes: seq<int>, B: int) returns (out: seq<string>)
    ensures out == LpChunks(sizes, B)
  {
    var n := |sizes|;
    out := Header(sizes, B);
    out := out + ["Minimize\n", ObjectiveLine(n)];
    out := out + ["Subject To\n"];
    ghost var top := out;
    for i := 0 to n
      invariant out == Lines(top, i, AssignLine(n))
    {
      out := out + [AssignRow(i, n)];
    }
    ghost var assigns := out;
    for j := 0 to n
      invariant out == Lines(assigns, j, CapLine(sizes, B))
    {
      out := out + [CapRow(j, sizes, B)];
    }
    out := out + ["\nBinary\n"];
    ghost var binary := out;
    for j := 0 to n
      invariant out == Lines(binary, j, YLine)
    {
      out := out + [YLine(j)];
    }
    ghost var ys := out;
    for i := 0 to n
      invariant out == XRows(ys, n, i)
    {
      ghost var row := out;
      for j := 0 to n
        invariant out == Lines(row, j, XLineOf(i))
      {
        out := out + [XLine(i, j)];
      }
    }
    out := out + ["End\n"];
  }

  /** `Body` keeps the opening lines. */
  lemma {:induction false} BodyKeepsTop(top: seq<string>, n: nat, assign: nat -> string, cap: nat -> string, k: nat)
    requires k < |top|
    ensures Body(top, n, assign, cap)[k] == top[k]
  {
    var assigns := Lines(top, n, assign);
    var rows := Lines(assigns, n, cap);
    var binary := rows + ["\nBinary\n"];
    var vars := Lines(binary, n, YLine);
    XRowsKeep(vars, n, n, k);
    LinesKeep(binary, n, YLine, k);
    LinesKeep(assigns, n, cap, k);
    LinesKeep(top, n, assign, k);
  }

  /** The assignment row of item `i` follows the opening lines at offset `i`. */
  lemma {:induction false} BodyAssignAt(top: seq<string>, n: nat, assign: nat -> string, cap: nat -> string, i: nat)
    requires i < n
    ensures Body(top, n, assign, cap)[|top| + i] == assign(i)
  {
    var assigns := Lines(top, n, assign);
    var rows := Lines(assigns, n, cap);
    var binary := rows + ["\nBinary\n"];
    var vars := Lines(binary, n, YLine);
    XRowsKeep(vars, n, n, |top| + i);
    LinesKeep(binary, n, YLine, |top| + i);
    LinesKeep(assigns, n, cap, |top| + i);
    LinesAt(top, n, assign, i);
  }

  /** The capacity row of bin `j` follows the assignment rows. */
  lemma {:induction false} BodyCapAt(top: seq<string>, n: nat, assign: nat -> string, cap: nat -> string, j: nat)
    requires j < n
    ensures Body(top, n, assign, cap)[|top| + n + j] == cap(j)
  {
    var assigns := Lines(top, n, assign);
    var rows := Lines(assigns, n, cap);
    var binary := rows + ["\nBinary\n"];
    var vars := Lines(binary, n, YLine);
    XRowsKeep(vars, n, n, |top| + n + j);
    LinesKeep(binary, n, YLine, |top| + n + j);
    LinesAt(assigns, n, cap, j);
  }

  /** `Binary` follows the capacity rows. */
  lemma {:induction false} BodyBinary(top: seq<string>, n: nat, assign: nat -> string, cap: nat -> string)
    ensures Body(top, n, assign, cap)[|top| + 2 * n] == "\nBinary\n"
  {
    var rows := Lines(Lines(top, n, assign), n, cap);
    var binary := rows + ["\nBinary\n"];
    var vars := Lines(binary, n, YLine);
    XRowsKeep(vars, n, n, |top| + 2 * n);
    LinesKeep(binary, n, YLine, |top| + 2 * n);
  }

  /** The variable of bin `j` follows `Binary` at offset `j`. */
  lemma {:induction false} BodyYAt(top: seq<string>, n: nat, assign: nat -> string, cap: nat -> string, j: nat)
    requires j < n
    ensures Body(top, n, assign, cap)[|top| + 2 * n + 1 + j] == YLine(j)
  {
    var rows := Lines(Lines(top, n, assign), n, cap);
    var binary := rows + ["\nBinary\n"];
    var vars := Lines(binary, n, YLine);
    XRowsKeep(vars, n, n, |top| + 2 * n + 1 + j);
    LinesAt(binary, n, YLine, j);
  }

  /** The variable of item `i` and bin `j` follows the bin variables in row-major order; `End` closes the file. */
  lemma {:induction false} BodyXAt(top: seq<string>, n: nat, assign: nat -> string, cap: nat -> string, i: nat, j: nat)
    requires i < n && j < n
    ensures Body(top, n, assign, cap)[|top| + 2 * n + 1 + n + Cell(n, i, j)] == XLine(i, j)
    ensures Body(top, n, assign, cap)[|Body(top, n, assign, cap)| - 1] == "End\n"
  {
    var assigns := Lines(top, n, assign);
    var rows := Lines(assigns, n, cap);
    var binary := rows + ["\nBinary\n"];
    var vars := Lines(binary, n, YLine);
    XRowsRowMajor(vars, n, n, i, j);
  }

  /**
   * The fixed lines of the LP file: the two comment lines, `Minimize`, the
   * objective, `Subject To`, `Binary` after the `2 * n` rows, and `End` last.
   */
  lemma {:induction false} LpFixedLines(sizes: seq<int>, B: int)
    ensures var c, n := LpChunks(sizes, B), |sizes|;
            c[..2] == Header(sizes, B)
            && c[2] == "Minimize\n" && c[3] == ObjectiveLine(n) && c[4] == "Subject To\n"
            && c[5 + 2 * n] == "\nBinary\n"
            && c[|c| - 1] == "End\n"
  {
    var n := |sizes|;
    var top, assign, cap := Top(sizes, B), AssignLine(n), CapLine(sizes, B);
    BodyKeepsTop(top, n, assign, cap, 0);
    BodyKeepsTop(top, n, assign, cap, 1);
    BodyKeepsTop(top, n, assign, cap, 2);
    BodyKeepsTop(top, n, assign, cap, 3);
    BodyKeepsTop(top, n, assign, cap, 4);
    BodyBinary(top, n, assign, cap);
  }

  /** Line `5 + i` is the assignment row of item `i`. */
  lemma {:induction false} LpAssignRowAt(sizes: seq<int>, B: int, i: nat)
    requires i < |sizes|
    ensures LpChunks(sizes, B)[5 + i] == AssignRow(i, |sizes|)
  {
    var n := |sizes|;
    BodyAssignAt(Top(sizes, B), n, AssignLine(n), CapLine(sizes, B), i);
  }

  /** Line `5 + n + j` is the capacity row of bin `j`. */
  lemma {:induction false} LpCapRowAt(sizes: seq<int>, B: int, j: nat)
    requires j < |sizes|
    ensures LpChunks(sizes, B)[5 + |sizes| + j] == CapRow(j, sizes, B)
  {
    var n := |sizes|;
    BodyCapAt(Top(sizes, B), n, AssignLine(n), CapLine(sizes, B), j);
  }

  /** Line `6 + 2 * n + j`, in the `Binary` section, is the variable of bin `j`. */
  lemma {:induction false} LpBinVarAt(sizes: seq<int>, B: int, j: nat)
    requires j < |sizes|
    ensures LpChunks(sizes, B)[6 + 2 * |sizes| + j] == YLine(j)
  {
    var n := |sizes|;
    BodyYAt(Top(sizes, B), n, AssignLine(n), CapLine(sizes, B), j);
  }

  /** After the bin variables, the variable of item `i` and bin `j` comes at offset `i * n + j`: row-major order. */
  lemma {:induction false} LpItemVarAt(sizes: seq<int>, B: int, i: nat, j: nat)
    requires i < |sizes| && j < |sizes|
    ensures LpChunks(sizes, B)[6 + 3 * |sizes| + Cell(|sizes|, i, j)] == XLine(i, j)
  {
    var n := |sizes|;
    BodyXAt(Top(sizes, B), n, AssignLine(n), CapLine(sizes, B), i, j);
  }

  /** Every capacity row has at least one term, so the `or "0"` fallback is never taken. */
  lemma CapTermsNonEmpty(j: nat, sizes: seq<int>)
    requires |sizes| > 0
    ensures CapTerms(j, sizes) != ""
  {
  }

  // ---------------------------------------------------------------------
  // generate_instance
  // ---------------------------------------------------------------------

  const OutDir := "bin_pack_prob"

  /** A key, then an integer in decimal, then the rest of the name. */
  function Field(key: string, x: int, rest: string): string
  {
    key + (IntToString(x) + rest)
  }

  /** The output file name: `n`, `B`, `classes` and the seed actually used, `seed + n`, as labelled fields. */
  function FileName(n: int, B: int, classes: int, seed: int): (r: string)
    ensures var tail := "_seed" + IntToString(seed + n) + ".lp";
            |tail| < |r| && r[|r| - |tail|..] == tail
  {
    var tail := Field("_seed", seed + n, ".lp");
    assert tail == "_seed" + IntToString(seed + n) + ".lp";
    var t3 := Field("_classes", classes, tail);
    var t2 := Field("_B", B, t3);
    var t1 := Field("_n", n, t2);
    FieldEndsWith("_classes", classes, tail);
    FieldEndsWith("_B", B, t3);
    EndsWithTrans(t2, t3, tail);
    FieldEndsWith("_n", n, t2);
    EndsWithTrans(t1, t2, tail);
    AppendEndsWith("hardness_halfcap_sorted", t1);
    EndsWithTrans("hardness_halfcap_sorted" + t1, t1, tail);
    "hardness_halfcap_sorted" + t1
  }

  /** `r` ends with `t`. */
  predicate EndsWith(r: string, t: string)
  {
    |t| <= |r| && r[|r| - |t|..] == t
  }

  lemma AppendEndsWith(a: string, b: string)
    ensures EndsWith(a + b, b)
  {
    assert (a + b)[|a|..] == b;
  }

  lemma EndsWithTrans(r: string, t: string, u: string)
    requires EndsWith(r, t) && EndsWith(t, u)
    ensures EndsWith(r, u)
  {
    assert r[|r| - |u|..] == r[|r| - |t|..][|t| - |u|..];
  }

  /** A field ends with its rest, after a non-empty key and number. */
  lemma FieldEndsWith(key: string, x: int, rest: string)
    ensures EndsWith(Field(key, x, rest), rest) && |rest| < |Field(key, x, rest)|
  {
    AppendEndsWith(IntToString(x), rest);
    AppendEndsWith(key, IntToString(x) + rest);
    EndsWithTrans(Field(key, x, rest), IntToString(x) + rest, rest);
  }

  /**
   * Reading a field back: two fields with the same key that are equal, and
   * whose rests start with a character no number contains, hold the same
   * number and the same rest.
   */
  lemma ReadField(key: string, x: int, rest: string, x2: int, rest2: string)
    requires rest != [] && rest2 != [] && rest[0] == rest2[0] && !IsDigit(rest[0]) && rest[0] != '-'
    requires Field(key, x, rest) == Field(key, x2, rest2)
    ensures x == x2 && rest == rest2
  {
    var v, v2 := IntToString(x) + rest, IntToString(x2) + rest2;
    assert v == Field(key, x, rest)[|key|..] == Field(key, x2, rest2)[|key|..] == v2;
    SplitAtFirst(IntToString(x), rest, IntToString(x2), rest2, rest[0]);
    IntToStringInjective(x, x2);
  }

  /**
   * The file name determines the instance it was written for: different
   * `n`, `B`, `classes` or seed used give different names.
   */
  lemma FileNameDeterminesParameters(n: int, B: int, classes: int, seed: int,
                                     n2: int, B2: int, classes2: int, seed2: int)
    requires FileName(n, B, classes, seed) == FileName(n2, B2, classes2, seed2)
    ensures n == n2 && B == B2 && classes == classes2 && seed + n == seed2 + n2
  {
    var head := "hardness_halfcap_sorted";
    var t4, u4 := Field("_seed", seed + n, ".lp"), Field("_seed", seed2 + n2, ".lp");
    var t3, u3 := Field("_classes", classes, t4), Field("_classes", classes2, u4);
    var t2, u2 := Field("_B", B, t3), Field("_B", B2, u3);
    var t1, u1 := Field("_n", n, t2), Field("_n", n2, u2);
    assert t1 == (head + t1)[|head|..] == (head + u1)[|head|..] == u1;
    ReadField("_n", n, t2, n2, u2);
    ReadField("_B", B, t3, B2, u3);
    ReadField("_classes", classes, t4, classes2, u4);
    ReadField("_seed", seed + n, ".lp", seed2 + n2, ".lp");
  }

  /** What `generate_instance` writes: the path, the sorted sizes and the LP text. */
  datatype Written = Written(path: string, sizes: seq<int>, lp: seq<string>)

  /** `generate_instance(B, n, classes, seed)`. */
  method GenerateInstance(B: int, n: int, classes: int, seed: int, pick: nat -> nat) returns (r: Result<Written, string>)
    ensures Instance(n, B, classes, pick).Failure? ==> r == Failure(Instance(n, B, classes, pick).error)
    ensures Instance(n, B, classes, pick).Success? ==>
              r.Success?
              && r.value.path == OutDir + "/" + FileName(n, B, classes, seed)
              && Sorted(r.value.sizes)
              && multiset(r.value.sizes) == multiset(Instance(n, B, classes, pick).value)
              && r.value.lp == LpChunks(r.value.sizes, B)
  {
    var inst := Instance(n, B, classes, pick);
    if inst.Failure? {
      return Failure(inst.error);
    }
    var a := new int[|inst.value|](i requires 0 <= i < |inst.value| => inst.value[i]);
    assert a[..] == inst.value;
    SortInPlace(a);
    var sizes := a[..];
    var path := OutDir + "/" + FileName(n, B, classes, seed);
    var lp := WriteBinPackingLp(sizes, B);
    return Success(Written(path, sizes, lp));
  }
}
