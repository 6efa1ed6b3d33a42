/**
 * The line recognizers of the transcript scanner (the `RE_*` patterns of
 * src/extract_to_csv.py).
 *
 * `RE_BEST_LINE`, `RE_EXPLORED`, `RE_PROGRESS_ROW_START` and the three parts of
 * `RE_TABLE_HEADER` are written as sequences of items (`Item`). What such a
 * sequence means as a regex is `Matches`: the text splits into one piece per
 * item, followed by the rest of the line, and may split in any way that fits.
 * In these sequences every greedy item is followed by an item that cannot
 * begin with a character the greedy item could have taken (`WellFormed`). The
 * greedy left-to-right matcher `Run` therefore succeeds exactly when a split
 * exists, and it yields the captures of that split (`RunSound`, `RunComplete`).
 * The two `.*` gaps of `RE_TABLE_HEADER` have no such property, so the header
 * matcher tries every position for each gap. `search` is the leftmost start
 * position where a matcher succeeds.
 */
module GurobiPatterns {
  import opened Wrappers
  import opened Text

  const TimeLimitPhrase: string := "Time limit reached"
  const OptimalPhrase: string := "Optimal solution found"

  /** `\w`, on ASCII text. */
  predicate IsWordChar(c: char)
  {
    IsDigit(c) || 'a' <= c <= 'z' || 'A' <= c <= 'Z' || c == '_'
  }

  /** `\b<p>\b` matches at index `i` of `s` (both ends of each phrase are word characters). */
  predicate PhraseAt(s: string, i: nat, p: string)
  {
    i + |p| <= |s| && s[i..i + |p|] == p
    && (i == 0 || !IsWordChar(s[i - 1]))
    && (i + |p| == |s| || !IsWordChar(s[i + |p|]))
  }

  /** The first index from `i` on where `\b<p>\b` matches in `s`. */
  function FindPhrase(s: string, p: string, i: nat): (r: Option<nat>)
    requires i <= |s|
    decreases |s| - i
    ensures r.Some? ==> i <= r.value <= |s| && PhraseAt(s, r.value, p)
    ensures r.Some? ==> forall j :: i <= j < r.value ==> !PhraseAt(s, j, p)
    ensures r.None? ==> forall j :: i <= j <= |s| ==> !PhraseAt(s, j, p)
  {
    if PhraseAt(s, i, p) then Some(i)
    else if i == |s| then None
    else FindPhrase(s, p, i + 1)
  }

  /** `RE_TIME_LIMIT.search(ln)`: case-sensitive, with word boundaries. */
  predicate HasTimeLimit(ln: string)
    ensures HasTimeLimit(ln) <==> exists i: nat :: i <= |ln| && PhraseAt(ln, i, TimeLimitPhrase)
  {
    FindPhrase(ln, TimeLimitPhrase, 0).Some?
  }

  /** `RE_OPTIMAL.search(ln)`: case-sensitive, with word boundaries. */
  predicate HasOptimal(ln: string)
    ensures HasOptimal(ln) <==> exists i: nat :: i <= |ln| && PhraseAt(ln, i, OptimalPhrase)
  {
    FindPhrase(ln, OptimalPhrase, 0).Some?
  }

  // ---------------------------------------------------------------------
  // The languages of the pieces
  // ---------------------------------------------------------------------

  predicate AllSpace(s: string)
  {
    forall i :: 0 <= i < |s| ==> IsSpace(s[i])
  }

  predicate AllDigits(s: string)
  {
    forall i :: 0 <= i < |s| ==> IsDigit(s[i])
  }

  predicate IsDecimalChar(c: char)
  {
    IsDigit(c) || c == '.'
  }

  /** The characters a number (`IsNumber`) is made of. */
  predicate IsNumberChar(c: char)
  {
    IsDigit(c) || c == '+' || c == '-' || c == '.' || c == 'e' || c == 'E'
  }

  predicate AllNumberChars(s: string)
  {
    forall i :: 0 <= i < |s| ==> IsNumberChar(s[i])
  }

  /** The length of the longest prefix of `t` made of whitespace. */
  function SpaceCount(t: string): (k: nat)
    ensures k <= |t| && forall i :: 0 <= i < k ==> IsSpace(t[i])
    ensures k == |t| || !IsSpace(t[k])
  {
    if t != [] && IsSpace(t[0]) then 1 + SpaceCount(t[1..]) else 0
  }

  /** The length of the longest prefix of `t` made of ASCII digits. */
  function DigitCount(t: string): (k: nat)
    ensures k <= |t| && AllDigits(t[..k])
    ensures k == |t| || !IsDigit(t[k])
  {
    if t != [] && IsDigit(t[0]) then 1 + DigitCount(t[1..]) else 0
  }

  /** The length of the longest prefix of `t` made of digits and dots (what `[0-9]*\.?[0-9]+` can span). */
  function DecimalRunLength(t: string): (k: nat)
    ensures k <= |t| && forall i :: 0 <= i < k ==> IsDecimalChar(t[i])
    ensures k == |t| || !IsDecimalChar(t[k])
  {
    if t != [] && IsDecimalChar(t[0]) then 1 + DecimalRunLength(t[1..]) else 0
  }

  /** The length of the longest prefix of `t` made of number characters. */
  function NumberRunLength(t: string): (k: nat)
    ensures k <= |t| && forall i :: 0 <= i < k ==> IsNumberChar(t[i])
    ensures k == |t| || !IsNumberChar(t[k])
  {
    if t != [] && IsNumberChar(t[0]) then 1 + NumberRunLength(t[1..]) else 0
  }

  /** `s` is in the language of `[0-9]*\.?[0-9]+`. */
  predicate IsDecimal(s: string)
  {
    var d := DigitCount(s);
    (d == |s| && d > 0) || (d < |s| && s[d] == '.' && d + 1 < |s| && AllDigits(s[d + 1..]))
  }

  function DropSign(s: string): string
  {
    if s != [] && (s[0] == '+' || s[0] == '-') then s[1..] else s
  }

  /** `s` is in the language of `[eE][+-]?\d+`. */
  predicate IsExponent(s: string)
  {
    |s| > 0 && (s[0] == 'e' || s[0] == 'E') && DropSign(s[1..]) != [] && AllDigits(DropSign(s[1..]))
  }

  /** `s` is in the language of `[+-]?\d+(?:\.\d+)?(?:[eE][+-]?\d+)?`. */
  predicate IsNumber(s: string)
  {
    var u := DropSign(s);
    var d := DigitCount(u);
    d > 0 &&
    var r := u[d..];
    r == [] || IsExponent(r) ||
    (r[0] == '.' && DigitCount(r[1..]) > 0 &&
     var e := r[1 + DigitCount(r[1..])..];
     e == [] || IsExponent(e))
  }

  /** Every character of a decimal is a digit or a dot. */
  lemma DecimalChars(w: string)
    requires IsDecimal(w)
    ensures forall i :: 0 <= i < |w| ==> IsDecimalChar(w[i])
  {
    var d := DigitCount(w);
    forall i | 0 <= i < |w|
      ensures IsDecimalChar(w[i])
    {
      if i < d {
        assert w[..d][i] == w[i];
      } else if i > d {
        assert w[d + 1..][i - d - 1] == w[i];
      }
    }
  }

  lemma DropSignChars(s: string)
    requires AllNumberChars(DropSign(s))
    ensures AllNumberChars(s)
  {
    if s != [] && (s[0] == '+' || s[0] == '-') {
      forall i | 0 < i < |s|
        ensures IsNumberChar(s[i])
      {
        assert s[i] == DropSign(s)[i - 1];
      }
    }
  }

  lemma ExponentChars(r: string)
    requires IsExponent(r)
    ensures AllNumberChars(r)
  {
    var body := r[1..];
    DropSignChars(body);
    forall i | 0 < i < |r|
      ensures IsNumberChar(r[i])
    {
      assert r[i] == body[i - 1];
    }
  }

  /** Every character of a number is a number character. */
  lemma NumberChars(w: string)
    requires IsNumber(w)
    ensures AllNumberChars(w)
  {
    var u := DropSign(w);
    var d := DigitCount(u);
    var r := u[d..];
    if r != [] && !IsExponent(r) {
      var dc := DigitCount(r[1..]);
      var e := r[1 + dc..];
      if e != [] {
        ExponentChars(e);
      }
      forall i | 1 <= i < |r|
        ensures IsNumberChar(r[i])
      {
        if i <= dc {
          assert r[1..][..dc][i - 1] == r[i];
        } else {
          assert e[i - 1 - dc] == r[i];
        }
      }
    } else if r != [] {
      ExponentChars(r);
    }
    forall i | 0 <= i < |u|
      ensures IsNumberChar(u[i])
    {
      if i < d {
        assert u[..d][i] == u[i];
      } else {
        assert r[i - d] == u[i];
      }
    }
    DropSignChars(w);
  }

  /** Two maximal runs of `P` at the start of `t` have the same length. */
  lemma MaximalRun(t: string, P: char -> bool, m: nat, k: nat)
    requires m <= |t| && (forall i :: 0 <= i < m ==> P(t[i])) && (m == |t| || !P(t[m]))
    requires k <= |t| && (forall i :: 0 <= i < k ==> P(t[i])) && (k == |t| || !P(t[k]))
    ensures m == k
  {
  }

  // ---------------------------------------------------------------------
  // Patterns as sequences of items
  // ---------------------------------------------------------------------

  /**
   * One element of a pattern. `Word` is a literal under IGNORECASE, written in
   * lower case; `Optional(c)` is `c?` under IGNORECASE. The numeric items are
   * the captured groups of `RE_BEST_LINE` and `RE_EXPLORED`.
   */
  datatype Item =
    | Word(lit: string)
    | Exact(c: char)
    | Optional(c: char)
    | Space0                          // \s*
    | Space1                          // \s+
    | Digits                          // \d+
    | Decimal                         // [0-9]*\.?[0-9]+
    | Number                          // [+-]?\d+(?:\.\d+)?(?:[eE][+-]?\d+)?

  /** `w`, as a whole, is a match of `it`. */
  predicate ItemLang(it: Item, w: string)
  {
    match it
    case Word(lit) => |w| == |lit| && LowerAscii(w) == lit
    case Exact(c) => w == [c]
    case Optional(c) => w == [] || (|w| == 1 && LowerChar(w[0]) == c)
    case Space0 => AllSpace(w)
    case Space1 => w != [] && AllSpace(w)
    case Digits => w != [] && AllDigits(w)
    case Decimal => IsDecimal(w)
    case Number => IsNumber(w)
  }

  predicate Captures(it: Item)
  {
    it.Digits? || it.Decimal? || it.Number?
  }

  /** The capturing items of `items` from index `i` on, in order. */
  function Captured(items: seq<Item>, i: nat): seq<Item>
    requires i <= |items|
    decreases |items| - i
  {
    if i == |items| then []
    else if Captures(items[i]) then [items[i]] + Captured(items, i + 1)
    else Captured(items, i + 1)
  }

  /**
   * The regex meaning of `items[i..]` anchored at the start of `t`: `t` is a
   * match of each item in turn followed by `rest`, and `caps` lists the texts
   * of the capturing items, in order.
   */
  ghost predicate Matches(items: seq<Item>, i: nat, t: string, caps: seq<string>, rest: string)
    requires i <= |items|
    decreases |items| - i, 1
  {
    if i == |items| then caps == [] && t == rest
    else exists k :: 0 <= k <= |t| && Piece(items, i, t, caps, rest, k)
  }

  /** The first `k` characters of `t` match `items[i]`, and the rest of `t` matches the items after it. */
  ghost predicate Piece(items: seq<Item>, i: nat, t: string, caps: seq<string>, rest: string, k: nat)
    requires i < |items| && k <= |t|
    decreases |items| - i, 0
  {
    ItemLang(items[i], t[..k]) &&
    if Captures(items[i]) then caps != [] && caps[0] == t[..k] && Matches(items, i + 1, t[k..], caps[1..], rest)
    else Matches(items, i + 1, t[k..], caps, rest)
  }

  /** How many characters a greedy match of `it` takes at the start of `t`. */
  function Step(it: Item, t: string): (r: Option<nat>)
    ensures r.Some? ==> r.value <= |t| && ItemLang(it, t[..r.value])
  {
    match it
    case Word(lit) => if |lit| <= |t| && LowerAscii(t[..|lit|]) == lit then Some(|lit|) else None
    case Exact(c) => if t != [] && t[0] == c then Some(1) else None
    case Optional(c) => if t != [] && LowerChar(t[0]) == c then Some(1) else Some(0)
    case Space0 => Some(SpaceCount(t))
    case Space1 => if SpaceCount(t) > 0 then Some(SpaceCount(t)) else None
    case Digits => if DigitCount(t) > 0 then Some(DigitCount(t)) else None
    case Decimal =>
      var k := DecimalRunLength(t);
      if IsDecimal(t[..k]) then Some(k) else None
    case Number =>
      var k := NumberRunLength(t);
      if IsNumber(t[..k]) then Some(k) else None
  }

  /** The greedy left-to-right match of `items[i..]` at the start of `t`: the captures and the text after the match. */
  function Run(items: seq<Item>, i: nat, t: string): (r: Option<(seq<string>, string)>)
    requires i <= |items|
    decreases |items| - i
    ensures r.Some? ==> |r.value.0| == |Captured(items, i)|
    ensures r.Some? ==> forall j :: 0 <= j < |r.value.0| ==> ItemLang(Captured(items, i)[j], r.value.0[j])
  {
    if i == |items| then Some(([], t))
    else
      var k :- Step(items[i], t);
      var tail :- Run(items, i + 1, t[k..]);
      Some((if Captures(items[i]) then [t[..k]] + tail.0 else tail.0, tail.1))
  }

  /** What `Run` finds is a match. */
  lemma {:induction false} RunSound(items: seq<Item>, i: nat, t: string)
    requires i <= |items| && Run(items, i, t).Some?
    ensures Matches(items, i, t, Run(items, i, t).value.0, Run(items, i, t).value.1)
    decreases |items| - i
  {
    if i < |items| {
      var k := Step(items[i], t).value;
      var tail := Run(items, i + 1, t[k..]).value;
      RunSound(items, i + 1, t[k..]);
      var caps := Run(items, i, t).value.0;
      if Captures(items[i]) {
        assert caps[1..] == tail.0;
      }
      assert Piece(items, i, t, caps, Run(items, i, t).value.1, k);
    }
  }

  // ---------------------------------------------------------------------
  // When greedy matching is complete
  // ---------------------------------------------------------------------

  /** A match of `it` always has the same length. */
  predicate Fixed(it: Item)
  {
    it.Word? || it.Exact?
  }

  predicate Nullable(it: Item)
  {
    match it
    case Word(lit) => lit == []
    case Optional(_) => true
    case Space0 => true
    case _ => false
  }

  /** A non-empty match of `it` can begin with `c`. */
  predicate CanStart(it: Item, c: char)
  {
    match it
    case Word(lit) => lit != [] && LowerChar(c) == lit[0]
    case Exact(ch) => c == ch
    case Optional(ch) => LowerChar(c) == ch
    case Space0 => IsSpace(c)
    case Space1 => IsSpace(c)
    case Digits => IsDigit(c)
    case Decimal => IsDecimalChar(c)
    case Number => IsNumberChar(c)
  }

  /** A greedy match of `it` cannot take `c` as its next character. */
  predicate Blocks(it: Item, c: char)
  {
    match it
    case Optional(ch) => LowerChar(c) != ch
    case Space0 => !IsSpace(c)
    case Space1 => !IsSpace(c)
    case Digits => !IsDigit(c)
    case Decimal => !IsDecimalChar(c)
    case Number => !IsNumberChar(c)
    case _ => true
  }

  /** Every match of `items[j..]` is non-empty: at most its first item can match the empty text. */
  predicate Solid(items: seq<Item>, j: nat)
  {
    j < |items| && (!Nullable(items[j]) || (j + 1 < |items| && !Nullable(items[j + 1])))
  }

  /** A match of `items[j..]` (when `Solid(items, j)`) can begin with `c`. */
  predicate FirstOf(items: seq<Item>, j: nat, c: char)
  {
    j < |items| && (CanStart(items[j], c) || (Nullable(items[j]) && j + 1 < |items| && CanStart(items[j + 1], c)))
  }

  /** A printable ASCII character other than the space. */
  predicate Plain(x: char)
  {
    '!' <= x <= '~'
  }

  /** Every `c` with `LowerChar(c) == x` (a word or an optional character written with `x`) is blocked by `it`. */
  predicate SeparatedFromLetter(it: Item, x: char)
  {
    match it
    case Optional(y) => x != y
    case Space0 => Plain(x)
    case Space1 => Plain(x)
    case Digits => 'a' <= x <= 'z'
    case Decimal => 'a' <= x <= 'z'
    case Number => 'a' <= x <= 'z' && x != 'e'
    case _ => true
  }

  /** `it` blocks every whitespace character. */
  predicate SpaceStops(it: Item)
  {
    match it
    case Optional(y) => Plain(y)
    case Space0 => false
    case Space1 => false
    case _ => true
  }

  /** No non-empty match of `nx` can begin with a character that `it` could still take. */
  predicate Separated(it: Item, nx: Item)
  {
    match nx
    case Word(lit) => lit != [] && SeparatedFromLetter(it, lit[0])
    case Optional(x) => SeparatedFromLetter(it, x)
    case Exact(ch) => Blocks(it, ch)
    case Space0 => SpaceStops(it)
    case Space1 => SpaceStops(it)
    case _ => Fixed(it) || it.Space0? || it.Space1?
  }

  lemma SeparatedBlocks(it: Item, nx: Item, c: char)
    requires Separated(it, nx) && CanStart(nx, c)
    ensures Blocks(it, c)
  {
  }

  /**
   * `items[i]` may stand where it is: it has a fixed length, or what follows it
   * always starts with a character it cannot take. The last item must not be
   * a captured or optional run.
   */
  predicate FollowsAt(items: seq<Item>, i: nat)
    requires i < |items|
  {
    if i + 1 == |items| then Fixed(items[i]) || items[i].Space1?
    else
      Fixed(items[i]) ||
      (Solid(items, i + 1) && Separated(items[i], items[i + 1]) &&
       (Nullable(items[i + 1]) ==> i + 2 < |items| && Separated(items[i], items[i + 2])))
  }

  /** Every item from index `i` on may stand where it is. */
  predicate WellFormed(items: seq<Item>, i: nat)
  {
    forall j :: i <= j < |items| ==> FollowsAt(items, j)
  }

  /** What a non-empty match of `it` starts with; an empty match only for a nullable item. */
  lemma MatchStart(it: Item, w: string)
    requires ItemLang(it, w)
    ensures w == [] ==> Nullable(it)
    ensures w != [] ==> CanStart(it, w[0])
  {
    match it
    case Decimal =>
      if w != [] {
        DecimalChars(w);
      }
    case Number =>
      if w != [] {
        NumberChars(w);
      }
    case Word(lit) =>
      if w != [] {
        assert LowerAscii(w)[0] == LowerChar(w[0]);
      }
    case _ =>
  }

  /** A match of a solid run of items is not empty, and it starts with a possible first character. */
  lemma FirstChar(items: seq<Item>, j: nat, u: string, caps: seq<string>, rest: string)
    requires j <= |items| && Solid(items, j) && Matches(items, j, u, caps, rest)
    ensures u != [] && FirstOf(items, j, u[0])
  {
    var k :| 0 <= k <= |u| && Piece(items, j, u, caps, rest, k);
    MatchStart(items[j], u[..k]);
    if k == 0 {
      assert u[k..] == u;
      var caps' := if Captures(items[j]) then caps[1..] else caps;
      assert Matches(items, j + 1, u, caps', rest);
      var k2 :| 0 <= k2 <= |u| && Piece(items, j + 1, u, caps', rest, k2);
      MatchStart(items[j + 1], u[..k2]);
    }
  }

  /** Under the blocking condition, the greedy step takes exactly the piece `t[..k]`. */
  lemma StepComplete(it: Item, t: string, k: nat)
    requires k <= |t| && ItemLang(it, t[..k]) && (k == |t| || Blocks(it, t[k]))
    ensures Step(it, t) == Some(k)
  {
    var w := t[..k];
    assert forall i :: 0 <= i < k ==> w[i] == t[i];
    match it
    case Space0 => MaximalRun(t, IsSpace, SpaceCount(t), k);
    case Space1 => MaximalRun(t, IsSpace, SpaceCount(t), k);
    case Digits =>
      var d := DigitCount(t);
      assert forall i :: 0 <= i < d ==> t[..d][i] == t[i];
      MaximalRun(t, IsDigit, d, k);
    case Decimal =>
      DecimalChars(w);
      MaximalRun(t, IsDecimalChar, DecimalRunLength(t), k);
    case Number =>
      NumberChars(w);
      MaximalRun(t, IsNumberChar, NumberRunLength(t), k);
    case Exact(c) =>
    case Optional(c) =>
    case Word(lit) =>
  }

  /** The last item of a well-formed pattern succeeds wherever some piece of `t` matches it. */
  lemma LastStep(it: Item, t: string, k: nat)
    requires k <= |t| && ItemLang(it, t[..k]) && (Fixed(it) || it.Space1?)
    ensures Step(it, t).Some?
    ensures Fixed(it) ==> Step(it, t) == Some(k)
  {
    if it.Space1? {
      assert t[..k][0] == t[0];
    } else {
      StepComplete(it, t, k);
    }
  }

  /**
   * Greedy matching of a well-formed pattern is complete: wherever the regex
   * matches, `Run` matches with the same captures and, when the last item has
   * a fixed length, leaves the same rest.
   */
  lemma {:induction false} RunComplete(items: seq<Item>, i: nat, t: string, caps: seq<string>, rest: string)
    requires i <= |items| && WellFormed(items, i) && Matches(items, i, t, caps, rest)
    ensures Run(items, i, t).Some? && Run(items, i, t).value.0 == caps
    ensures i < |items| && Fixed(items[|items| - 1]) ==> Run(items, i, t).value.1 == rest
    decreases |items| - i
  {
    if i < |items| {
      var k :| 0 <= k <= |t| && Piece(items, i, t, caps, rest, k);
      var caps' := if Captures(items[i]) then caps[1..] else caps;
      assert Matches(items, i + 1, t[k..], caps', rest);
      assert FollowsAt(items, i);
      if i + 1 == |items| {
        LastStep(items[i], t, k);
      } else {
        if !Fixed(items[i]) {
          NextBlocks(items, i, t, k, caps', rest);
        }
        StepComplete(items[i], t, k);
        RunComplete(items, i + 1, t[k..], caps', rest);
        RunCons(items, i, t, k, caps, caps');
      }
    }
  }

  /** `Run` takes the step the first item allows and keeps what the rest of the run finds. */
  lemma RunCons(items: seq<Item>, i: nat, t: string, k: nat, caps: seq<string>, caps': seq<string>)
    requires i < |items| && k <= |t| && Step(items[i], t) == Some(k)
    requires Run(items, i + 1, t[k..]).Some? && Run(items, i + 1, t[k..]).value.0 == caps'
    requires if Captures(items[i]) then caps != [] && caps[0] == t[..k] && caps' == caps[1..] else caps' == caps
    ensures Run(items, i, t).Some? && Run(items, i, t).value.0 == caps
    ensures Run(items, i, t).value.1 == Run(items, i + 1, t[k..]).value.1
  {
    RunUnfold(items, i, t, k);
    if Captures(items[i]) {
      assert caps == [t[..k]] + caps';
    }
  }

  /** One unfolding of `Run` after a successful step of `k` characters. */
  lemma RunUnfold(items: seq<Item>, i: nat, t: string, k: nat)
    requires i < |items| && k <= |t| && Step(items[i], t) == Some(k) && Run(items, i + 1, t[k..]).Some?
    ensures var tail := Run(items, i + 1, t[k..]).value;
            Run(items, i, t) == Some((if Captures(items[i]) then [t[..k]] + tail.0 else tail.0, tail.1))
  {
  }

  /** Where the next items match from `k`, the character at `k` stops the open-ended item `i`. */
  lemma NextBlocks(items: seq<Item>, i: nat, t: string, k: nat, caps: seq<string>, rest: string)
    requires i + 1 < |items| && k <= |t| && FollowsAt(items, i) && !Fixed(items[i])
    requires Matches(items, i + 1, t[k..], caps, rest)
    ensures k < |t| && Blocks(items[i], t[k])
  {
    FirstChar(items, i + 1, t[k..], caps, rest);
    assert t[k..][0] == t[k];
    if CanStart(items[i + 1], t[k]) {
      SeparatedBlocks(items[i], items[i + 1], t[k]);
    } else {
      SeparatedBlocks(items[i], items[i + 2], t[k]);
    }
  }

  /** `Run` on a well-formed pattern, stated for every possible split at once. */
  lemma RunAll(items: seq<Item>, t: string)
    requires WellFormed(items, 0)
    ensures Run(items, 0, t).Some? ==> Matches(items, 0, t, Run(items, 0, t).value.0, Run(items, 0, t).value.1)
    ensures forall caps, rest :: Matches(items, 0, t, caps, rest) ==> Run(items, 0, t).Some? && Run(items, 0, t).value.0 == caps
  {
    if Run(items, 0, t).Some? {
      RunSound(items, 0, t);
    }
    forall caps, rest | Matches(items, 0, t, caps, rest)
      ensures Run(items, 0, t).Some? && Run(items, 0, t).value.0 == caps
    {
      RunComplete(items, 0, t, caps, rest);
    }
  }

  /** Some split of `t` matches the whole of `items`. */
  ghost predicate MatchesSome(items: seq<Item>, t: string)
  {
    exists caps, rest :: Matches(items, 0, t, caps, rest)
  }

  /** `Run` on a well-formed pattern succeeds exactly when the pattern matches. */
  lemma RunIff(items: seq<Item>, t: string)
    requires WellFormed(items, 0)
    ensures Run(items, 0, t).Some? <==> MatchesSome(items, t)
  {
    RunAll(items, t);
  }

  /** The leftmost index from `i` on where `at` matches the rest of `s`, and what it captured. */
  function FirstMatch<T>(s: string, at: string -> Option<T>, i: nat): (r: Option<T>)
    requires i <= |s|
    decreases |s| - i
    ensures r.Some? ==> exists k :: i <= k <= |s| && at(s[k..]) == r && forall j :: i <= j < k ==> at(s[j..]).None?
    ensures r.None? ==> forall k :: i <= k <= |s| ==> at(s[k..]).None?
  {
    if at(s[i..]).Some? then at(s[i..])
    else if i == |s| then None
    else FirstMatch(s, at, i + 1)
  }

  // ---------------------------------------------------------------------
  // RE_BEST_LINE
  // ---------------------------------------------------------------------

  /** `Best objective\s+(NUM),\s*best bound\s+(NUM),\s*gap\s+(DEC)%` under IGNORECASE. */
  const BestItems: seq<Item> := [
    Word("best objective"), Space1, Number, Exact(','), Space0,
    Word("best bound"), Space1, Number, Exact(','), Space0,
    Word("gap"), Space1, Decimal, Exact('%')]

  lemma BestItemsFollow0()
    ensures forall j :: 0 <= j < 5 ==> FollowsAt(BestItems, j)
  {
    assert FollowsAt(BestItems, 0);
    assert FollowsAt(BestItems, 1);
    assert FollowsAt(BestItems, 2);
    assert FollowsAt(BestItems, 3);
    assert FollowsAt(BestItems, 4);
  }

  lemma BestItemsFollow5()
    ensures forall j :: 5 <= j < 10 ==> FollowsAt(BestItems, j)
  {
    assert FollowsAt(BestItems, 5);
    assert FollowsAt(BestItems, 6);
    assert FollowsAt(BestItems, 7);
    assert FollowsAt(BestItems, 8);
    assert FollowsAt(BestItems, 9);
  }

  lemma BestItemsFollow10()
    ensures forall j :: 10 <= j < 14 ==> FollowsAt(BestItems, j)
  {
    assert FollowsAt(BestItems, 10);
    assert FollowsAt(BestItems, 11);
    assert FollowsAt(BestItems, 12);
    assert FollowsAt(BestItems, 13);
  }

  lemma BestItemsCaptured()
    ensures Captured(BestItems, 0) == [Number, Number, Decimal]
  {
    assert Captured(BestItems, 14) == [];
    assert Captured(BestItems, 13) == [];
    assert Captured(BestItems, 12) == [Decimal];
    assert Captured(BestItems, 11) == [Decimal];
    assert Captured(BestItems, 10) == [Decimal];
    assert Captured(BestItems, 9) == [Decimal];
    assert Captured(BestItems, 8) == [Decimal];
    assert Captured(BestItems, 7) == [Number, Decimal];
    assert Captured(BestItems, 6) == [Number, Decimal];
    assert Captured(BestItems, 5) == [Number, Decimal];
    assert Captured(BestItems, 4) == [Number, Decimal];
    assert Captured(BestItems, 3) == [Number, Decimal];
    assert Captured(BestItems, 2) == [Number, Number, Decimal];
    assert Captured(BestItems, 1) == [Number, Number, Decimal];
    assert Captured(BestItems, 0) == [Number, Number, Decimal];
  }

  lemma BestItemsWellFormed()
    ensures WellFormed(BestItems, 0)
    ensures Captured(BestItems, 0) == [Number, Number, Decimal]
  {
    BestItemsFollow0();
    BestItemsFollow5();
    BestItemsFollow10();
    BestItemsCaptured();
  }

  /** The groups of `RE_BEST_LINE`: objective, best bound and gap (without `%`). */
  datatype BestLine = BestLine(objective: string, bound: string, gap: string)

  /** `RE_BEST_LINE` anchored at the start of `t`. */
  function BestAt(t: string): (r: Option<BestLine>)
    ensures r.Some? ==> IsNumber(r.value.objective) && IsNumber(r.value.bound) && IsDecimal(r.value.gap)
    ensures r.Some? ==> exists rest :: Matches(BestItems, 0, t, [r.value.objective, r.value.bound, r.value.gap], rest)
    ensures forall caps, rest :: Matches(BestItems, 0, t, caps, rest) ==>
      |caps| == 3 && r == Some(BestLine(caps[0], caps[1], caps[2]))
  {
    BestItemsWellFormed();
    RunAll(BestItems, t);
    match Run(BestItems, 0, t)
    case None => None
    case Some((caps, _)) =>
      assert caps == [caps[0], caps[1], caps[2]];
      Some(BestLine(caps[0], caps[1], caps[2]))
  }

  /**
   * `RE_BEST_LINE.search(ln)`: the captures of the anchored match at the
   * leftmost position where there is one.
   */
  function BestSearch(ln: string): (r: Option<BestLine>)
    ensures r.None? <==> forall k :: 0 <= k <= |ln| ==> BestAt(ln[k..]).None?
    ensures r.Some? ==> exists k :: 0 <= k <= |ln| && BestAt(ln[k..]) == r && forall j :: 0 <= j < k ==> BestAt(ln[j..]).None?
  {
    FirstMatch(ln, BestAt, 0)
  }

  // ---------------------------------------------------------------------
  // RE_EXPLORED
  // ---------------------------------------------------------------------

  /**
   * `Explored\s+(\d+)\s+nodes?\s*\(\s*(\d+)\s+simplex iterations\s*\)\s+in\s+(DEC)\s+seconds\s*\(\s*(DEC)\s+work units\s*\)`
   * under IGNORECASE.
   */
  const ExploredItems: seq<Item> := [
    Word("explored"), Space1, Digits, Space1, Word("node"), Optional('s'), Space0, Exact('('),
    Space0, Digits, Space1, Word("simplex iterations"), Space0, Exact(')'),
    Space1, Word("in"), Space1, Decimal, Space1, Word("seconds"), Space0, Exact('('),
    Space0, Decimal, Space1, Word("work units"), Space0, Exact(')')]

  lemma ExploredItemsFollow0()
    ensures forall j :: 0 <= j < 4 ==> FollowsAt(ExploredItems, j)
  {
    assert FollowsAt(ExploredItems, 0);
    assert FollowsAt(ExploredItems, 1);
    assert FollowsAt(ExploredItems, 2);
    assert FollowsAt(ExploredItems, 3);
  }

  lemma ExploredItemsFollow4()
    ensures forall j :: 4 <= j < 8 ==> FollowsAt(ExploredItems, j)
  {
    assert FollowsAt(ExploredItems, 4);
    assert FollowsAt(ExploredItems, 5);
    assert FollowsAt(ExploredItems, 6);
    assert FollowsAt(ExploredItems, 7);
  }

  lemma ExploredItemsFollow8()
    ensures forall j :: 8 <= j < 12 ==> FollowsAt(ExploredItems, j)
  {
    assert FollowsAt(ExploredItems, 8);
    assert FollowsAt(ExploredItems, 9);
    assert FollowsAt(ExploredItems, 10);
    assert FollowsAt(ExploredItems, 11);
  }

  lemma ExploredItemsFollow12()
    ensures forall j :: 12 <= j < 16 ==> FollowsAt(ExploredItems, j)
  {
    assert FollowsAt(ExploredItems, 12);
    assert FollowsAt(ExploredItems, 13);
    assert FollowsAt(ExploredItems, 14);
    assert FollowsAt(ExploredItems, 15);
  }

  lemma ExploredItemsFollow16()
    ensures forall j :: 16 <= j < 20 ==> FollowsAt(ExploredItems, j)
  {
    assert FollowsAt(ExploredItems, 16);
    assert FollowsAt(ExploredItems, 17);
    assert FollowsAt(ExploredItems, 18);
    assert FollowsAt(ExploredItems, 19);
  }

  lemma ExploredItemsFollow20()
    ensures forall j :: 20 <= j < 24 ==> FollowsAt(ExploredItems, j)
  {
    assert FollowsAt(ExploredItems, 20);
    assert FollowsAt(ExploredItems, 21);
    assert FollowsAt(ExploredItems, 22);
    assert FollowsAt(ExploredItems, 23);
  }

  lemma ExploredItemsFollow24()
    ensures forall j :: 24 <= j < 28 ==> FollowsAt(ExploredItems, j)
  {
    assert FollowsAt(ExploredItems, 24);
    assert FollowsAt(ExploredItems, 25);
    assert FollowsAt(ExploredItems, 26);
    assert FollowsAt(ExploredItems, 27);
  }

  lemma ExploredItemsCapturedFrom21()
    ensures Captured(ExploredItems, 21) == [Decimal]
  {
    assert Captured(ExploredItems, 28) == [];
    assert Captured(ExploredItems, 27) == [];
    assert Captured(ExploredItems, 26) == [];
    assert Captured(ExploredItems, 25) == [];
    assert Captured(ExploredItems, 24) == [];
    assert Captured(ExploredItems, 23) == [Decimal];
    assert Captured(ExploredItems, 22) == [Decimal];
    assert Captured(ExploredItems, 21) == [Decimal];
  }

  lemma ExploredItemsCapturedFrom14()
    ensures Captured(ExploredItems, 14) == [Decimal, Decimal]
  {
    ExploredItemsCapturedFrom21();
    assert Captured(ExploredItems, 20) == [Decimal];
    assert Captured(ExploredItems, 19) == [Decimal];
    assert Captured(ExploredItems, 18) == [Decimal];
    assert Captured(ExploredItems, 17) == [Decimal, Decimal];
    assert Captured(ExploredItems, 16) == [Decimal, Decimal];
    assert Captured(ExploredItems, 15) == [Decimal, Decimal];
    assert Captured(ExploredItems, 14) == [Decimal, Decimal];
  }

  lemma ExploredItemsCapturedFrom7()
    ensures Captured(ExploredItems, 7) == [Digits, Decimal, Decimal]
  {
    ExploredItemsCapturedFrom14();
    assert ExploredItems[7..14] == [Exact('('), Space0, Digits, Space1, Word("simplex iterations"), Space0, Exact(')')];
    assert Captured(ExploredItems, 13) == [Decimal, Decimal];
    assert Captured(ExploredItems, 12) == [Decimal, Decimal];
    assert Captured(ExploredItems, 11) == [Decimal, Decimal];
    assert Captured(ExploredItems, 10) == [Decimal, Decimal];
    assert Captured(ExploredItems, 9) == [Digits, Decimal, Decimal];
    assert Captured(ExploredItems, 8) == [Digits, Decimal, Decimal];
    assert Captured(ExploredItems, 7) == [Digits, Decimal, Decimal];
  }

  lemma ExploredItemsCaptured()
    ensures Captured(ExploredItems, 0) == [Digits, Digits, Decimal, Decimal]
  {
    ExploredItemsCapturedFrom7();
    assert Captured(ExploredItems, 6) == [Digits, Decimal, Decimal];
    assert Captured(ExploredItems, 5) == [Digits, Decimal, Decimal];
    assert Captured(ExploredItems, 4) == [Digits, Decimal, Decimal];
    assert Captured(ExploredItems, 3) == [Digits, Decimal, Decimal];
    assert Captured(ExploredItems, 2) == [Digits, Digits, Decimal, Decimal];
    assert Captured(ExploredItems, 1) == [Digits, Digits, Decimal, Decimal];
    assert Captured(ExploredItems, 0) == [Digits, Digits, Decimal, Decimal];
  }

  lemma ExploredItemsWellFormed()
    ensures WellFormed(ExploredItems, 0)
    ensures Captured(ExploredItems, 0) == [Digits, Digits, Decimal, Decimal]
  {
    ExploredItemsFollow0();
    ExploredItemsFollow4();
    ExploredItemsFollow8();
    ExploredItemsFollow12();
    ExploredItemsFollow16();
    ExploredItemsFollow20();
    ExploredItemsFollow24();
    ExploredItemsCaptured();
  }

  /** The groups of `RE_EXPLORED`: nodes, simplex iterations, seconds, work units. */
  datatype ExploredLine = ExploredLine(nodes: string, simplexIters: string, seconds: string, workUnits: string)

  /** `RE_EXPLORED` anchored at the start of `t`. */
  function ExploredAt(t: string): (r: Option<ExploredLine>)
    ensures r.Some? ==> r.value.nodes != [] && AllDigits(r.value.nodes)
    ensures r.Some? ==> r.value.simplexIters != [] && AllDigits(r.value.simplexIters)
    ensures r.Some? ==> IsDecimal(r.value.seconds) && IsDecimal(r.value.workUnits)
    ensures r.Some? ==> exists rest :: Matches(ExploredItems, 0, t, [r.value.nodes, r.value.simplexIters, r.value.seconds, r.value.workUnits], rest)
    ensures forall caps, rest :: Matches(ExploredItems, 0, t, caps, rest) ==>
      |caps| == 4 && r == Some(ExploredLine(caps[0], caps[1], caps[2], caps[3]))
  {
    ExploredItemsWellFormed();
    RunAll(ExploredItems, t);
    match Run(ExploredItems, 0, t)
    case None => None
    case Some((caps, _)) =>
      assert caps == [caps[0], caps[1], caps[2], caps[3]];
      Some(ExploredLine(caps[0], caps[1], caps[2], caps[3]))
  }

  /**
   * `RE_EXPLORED.search(ln)`: the captures of the anchored match at the
   * leftmost position where there is one.
   */
  function ExploredSearch(ln: string): (r: Option<ExploredLine>)
    ensures r.None? <==> forall k :: 0 <= k <= |ln| ==> ExploredAt(ln[k..]).None?
    ensures r.Some? ==> exists k :: 0 <= k <= |ln| && ExploredAt(ln[k..]) == r && forall j :: 0 <= j < k ==> ExploredAt(ln[j..]).None?
  {
    FirstMatch(ln, ExploredAt, 0)
  }

  // ---------------------------------------------------------------------
  // RE_TABLE_HEADER:  Expl\s+Unexpl .* Incumbent\s+BestBd\s+Gap .* It/Node\s+Time
  // ---------------------------------------------------------------------

  const HeaderPart1: seq<Item> := [Word("expl"), Space1, Word("unexpl")]
  const HeaderPart2: seq<Item> := [Word("incumbent"), Space1, Word("bestbd"), Space1, Word("gap")]
  const HeaderPart3: seq<Item> := [Word("it/node"), Space1, Word("time")]

  lemma HeaderPartsWellFormed()
    ensures WellFormed(HeaderPart1, 0) && WellFormed(HeaderPart2, 0) && WellFormed(HeaderPart3, 0)
  {
    assert FollowsAt(HeaderPart1, 0) && FollowsAt(HeaderPart1, 1) && FollowsAt(HeaderPart1, 2);
    assert FollowsAt(HeaderPart2, 0) && FollowsAt(HeaderPart2, 1) && FollowsAt(HeaderPart2, 2);
    assert FollowsAt(HeaderPart2, 3) && FollowsAt(HeaderPart2, 4);
    assert FollowsAt(HeaderPart3, 0) && FollowsAt(HeaderPart3, 1) && FollowsAt(HeaderPart3, 2);
  }

  /** `.*` (no newline) followed by a match of `items`. */
  predicate ScanFor(items: seq<Item>, t: string)
    decreases |t|
  {
    Run(items, 0, t).Some? || (t != [] && t[0] != '\n' && ScanFor(items, t[1..]))
  }

  /** `.*` (no newline), a match of `items`, then `.*` and a match of `next`. */
  predicate ScanForThen(items: seq<Item>, next: seq<Item>, t: string)
    decreases |t|
  {
    (match Run(items, 0, t)
     case Some((_, r)) => ScanFor(next, r)
     case None => false)
    || (t != [] && t[0] != '\n' && ScanForThen(items, next, t[1..]))
  }

  /** `RE_TABLE_HEADER` anchored at the start of `t`. */
  predicate HeaderAt(t: string)
  {
    RunThenScans(HeaderPart1, HeaderPart2, HeaderPart3, t)
  }

  /** A run of `head` at the start of `t`, then `.*` `items` `.*` `next` on what it leaves. */
  predicate RunThenScans(head: seq<Item>, items: seq<Item>, next: seq<Item>, t: string)
  {
    match Run(head, 0, t)
    case Some((_, r)) => ScanForThen(items, next, r)
    case None => false
  }

  /** `RE_TABLE_HEADER.search(ln)` finds a match. */
  predicate HasTableHeader(ln: string)
    ensures HasTableHeader(ln) <==> exists i: nat | i <= |ln| :: HeaderMatches(ln[i..])
  {
    HeaderAtEverywhere(ln);
    exists i: nat | i <= |ln| :: HeaderAt(ln[i..])
  }

  /** The regex meaning of `.*` followed by `items`: some newline-free gap, then a match. */
  ghost predicate GapThen(items: seq<Item>, u: string)
  {
    exists g, caps, rest :: 0 <= g <= |u| && '\n' !in u[..g] && Matches(items, 0, u[g..], caps, rest)
  }

  /** The regex meaning of `.*` `items` `.*` `next`. */
  ghost predicate GapThenGap(items: seq<Item>, next: seq<Item>, u: string)
  {
    exists g, caps, rest :: 0 <= g <= |u| && '\n' !in u[..g] && Matches(items, 0, u[g..], caps, rest) && GapThen(next, rest)
  }

  /** The regex meaning of `RE_TABLE_HEADER` anchored at the start of `t`. */
  ghost predicate HeaderMatches(t: string)
  {
    HeadGapsMatch(HeaderPart1, HeaderPart2, HeaderPart3, t)
  }

  /** The regex meaning of `head` `.*` `items` `.*` `next`, anchored at the start of `t`. */
  ghost predicate HeadGapsMatch(head: seq<Item>, items: seq<Item>, next: seq<Item>, t: string)
  {
    exists caps, rest :: Matches(head, 0, t, caps, rest) && GapThenGap(items, next, rest)
  }

  /** Skipping one non-newline character in front of a newline-free gap. */
  lemma GapShift(u: string, g: nat)
    requires 0 < g <= |u| && '\n' !in u[..g]
    ensures u[0] != '\n' && '\n' !in u[1..][..g - 1] && u[1..][g - 1..] == u[g..]
  {
    assert u[0] == u[..g][0];
    assert u[1..][..g - 1] == u[1..g];
  }

  /** A gap after one more non-newline character is still a gap. */
  lemma GapGrow(u: string, g: nat)
    requires u != [] && u[0] != '\n' && g <= |u[1..]| && '\n' !in u[1..][..g]
    ensures '\n' !in u[..g + 1] && u[g + 1..] == u[1..][g..]
  {
    assert u[..g + 1] == [u[0]] + u[1..][..g];
  }

  lemma {:induction false} ScanForSound(items: seq<Item>, u: string)
    requires ScanFor(items, u)
    ensures GapThen(items, u)
    decreases |u|
  {
    if Run(items, 0, u).Some? {
      RunSound(items, 0, u);
      var (caps, rest) := Run(items, 0, u).value;
      assert u[0..] == u && u[..0] == [];
      assert Matches(items, 0, u[0..], caps, rest);
    } else {
      ScanForSound(items, u[1..]);
      var g, caps, rest :| 0 <= g <= |u[1..]| && '\n' !in u[1..][..g] && Matches(items, 0, u[1..][g..], caps, rest);
      GapGrow(u, g);
      assert Matches(items, 0, u[g + 1..], caps, rest);
    }
  }

  lemma {:induction false} ScanForComplete(items: seq<Item>, u: string)
    requires WellFormed(items, 0) && GapThen(items, u)
    ensures ScanFor(items, u)
    decreases |u|
  {
    var g, caps, rest :| 0 <= g <= |u| && '\n' !in u[..g] && Matches(items, 0, u[g..], caps, rest);
    if g == 0 {
      assert u[g..] == u;
      RunComplete(items, 0, u, caps, rest);
    } else {
      GapShift(u, g);
      assert Matches(items, 0, u[1..][g - 1..], caps, rest);
      ScanForComplete(items, u[1..]);
    }
  }

  /** Scanning for a well-formed pattern succeeds exactly when `.*` followed by the pattern matches. */
  lemma ScanForSpec(items: seq<Item>, u: string)
    requires WellFormed(items, 0)
    ensures ScanFor(items, u) <==> GapThen(items, u)
  {
    if ScanFor(items, u) {
      ScanForSound(items, u);
    }
    if GapThen(items, u) {
      ScanForComplete(items, u);
    }
  }

  lemma {:induction false} ScanForThenSound(items: seq<Item>, next: seq<Item>, u: string)
    requires ScanForThen(items, next, u)
    ensures GapThenGap(items, next, u)
    decreases |u|
  {
    if Run(items, 0, u).Some? && ScanFor(next, Run(items, 0, u).value.1) {
      RunSound(items, 0, u);
      var (caps, rest) := Run(items, 0, u).value;
      ScanForSound(next, rest);
      assert u[0..] == u && u[..0] == [];
      assert Matches(items, 0, u[0..], caps, rest);
    } else {
      ScanForThenSound(items, next, u[1..]);
      var g, caps, rest :| 0 <= g <= |u[1..]| && '\n' !in u[1..][..g] && Matches(items, 0, u[1..][g..], caps, rest) && GapThen(next, rest);
      GapGrow(u, g);
      assert Matches(items, 0, u[g + 1..], caps, rest);
    }
  }

  lemma {:induction false} ScanForThenComplete(items: seq<Item>, next: seq<Item>, u: string)
    requires WellFormed(items, 0) && items != [] && Fixed(items[|items| - 1]) && WellFormed(next, 0)
    requires GapThenGap(items, next, u)
    ensures ScanForThen(items, next, u)
    decreases |u|
  {
    var g, caps, rest :| 0 <= g <= |u| && '\n' !in u[..g] && Matches(items, 0, u[g..], caps, rest) && GapThen(next, rest);
    if g == 0 {
      assert u[g..] == u;
      RunComplete(items, 0, u, caps, rest);
      ScanForComplete(next, rest);
    } else {
      GapShift(u, g);
      assert Matches(items, 0, u[1..][g - 1..], caps, rest);
      ScanForThenComplete(items, next, u[1..]);
    }
  }

  /**
   * Scanning for two well-formed patterns in turn, the first ending in a
   * fixed-length item, succeeds exactly when `.*` first `.*` second matches.
   */
  lemma ScanForThenSpec(items: seq<Item>, next: seq<Item>, u: string)
    requires WellFormed(items, 0) && items != [] && Fixed(items[|items| - 1]) && WellFormed(next, 0)
    ensures ScanForThen(items, next, u) <==> GapThenGap(items, next, u)
  {
    if ScanForThen(items, next, u) {
      ScanForThenSound(items, next, u);
    }
    if GapThenGap(items, next, u) {
      ScanForThenComplete(items, next, u);
    }
  }

  /**
   * A run of `head` followed by `.*` `items` `.*` `next` on what it leaves
   * succeeds exactly when the three parts match in the regex sense.
   */
  lemma HeadThenGapsSpec(head: seq<Item>, items: seq<Item>, next: seq<Item>, t: string)
    requires WellFormed(head, 0) && head != [] && Fixed(head[|head| - 1])
    requires WellFormed(items, 0) && items != [] && Fixed(items[|items| - 1]) && WellFormed(next, 0)
    ensures RunThenScans(head, items, next, t) <==> HeadGapsMatch(head, items, next, t)
  {
    var run := Run(head, 0, t);
    if run.Some? {
      RunSound(head, 0, t);
      ScanForThenSpec(items, next, run.value.1);
      if ScanForThen(items, next, run.value.1) {
        assert Matches(head, 0, t, run.value.0, run.value.1) && GapThenGap(items, next, run.value.1);
      }
    }
    if HeadGapsMatch(head, items, next, t) {
      var caps, rest :| Matches(head, 0, t, caps, rest) && GapThenGap(items, next, rest);
      RunComplete(head, 0, t, caps, rest);
      ScanForThenSpec(items, next, rest);
      assert run.Some? && run.value.1 == rest;
    }
  }

  /** At every position of `ln`, the header matcher agrees with the regex meaning. */
  lemma HeaderAtEverywhere(ln: string)
    ensures forall i :: 0 <= i <= |ln| ==> (HeaderAt(ln[i..]) <==> HeaderMatches(ln[i..]))
  {
    forall i | 0 <= i <= |ln|
      ensures HeaderAt(ln[i..]) <==> HeaderMatches(ln[i..])
    {
      HeaderAtSpec(ln[i..]);
    }
  }

  /** The header matcher succeeds exactly when `RE_TABLE_HEADER` matches at the start of `t`. */
  lemma HeaderAtSpec(t: string)
    ensures HeaderAt(t) <==> HeaderMatches(t)
  {
    HeaderPartsWellFormed();
    var p1, p2, p3 := HeaderPart1, HeaderPart2, HeaderPart3;
    assert p1 != [] && Fixed(p1[|p1| - 1]) && p2 != [] && Fixed(p2[|p2| - 1]);
    HeadThenGapsSpec(p1, p2, p3, t);
  }

  // ---------------------------------------------------------------------
  // RE_PROGRESS_ROW_START and RE_PERCENT
  // ---------------------------------------------------------------------

  /** `^(H\s+)?\d+\s+\d+\s+`, with and without the optional group (case-sensitive). */
  const RowWithH: seq<Item> := [Exact('H'), Space1, Digits, Space1, Digits, Space1]
  const RowPlain: seq<Item> := [Digits, Space1, Digits, Space1]

  lemma ProgressRowsWellFormed()
    ensures WellFormed(RowWithH, 0) && WellFormed(RowPlain, 0)
  {
    assert FollowsAt(RowWithH, 0) && FollowsAt(RowWithH, 1) && FollowsAt(RowWithH, 2);
    assert FollowsAt(RowWithH, 3) && FollowsAt(RowWithH, 4) && FollowsAt(RowWithH, 5);
    assert FollowsAt(RowPlain, 0) && FollowsAt(RowPlain, 1) && FollowsAt(RowPlain, 2) && FollowsAt(RowPlain, 3);
  }

  /** `RE_PROGRESS_ROW_START.match(s)`. */
  predicate ProgressRowStart(s: string)
    ensures ProgressRowStart(s) <==> MatchesSome(RowWithH, s) || MatchesSome(RowPlain, s)
  {
    ProgressRowsWellFormed();
    RunIff(RowWithH, s);
    RunIff(RowPlain, s);
    Run(RowWithH, 0, s).Some? || Run(RowPlain, 0, s).Some?
  }

  /** A token `RE_PERCENT` can match: a decimal number followed by `%`. */
  predicate IsPercentToken(m: string)
  {
    2 <= |m| && m[|m| - 1] == '%' && IsDecimal(m[..|m| - 1])
  }

  /** A percent token at the start of `s` is the whole digit-and-dot run there, and the `%` after it. */
  lemma PercentPrefixIsRun(s: string)
    ensures forall k :: 2 <= k <= |s| && IsPercentToken(s[..k]) ==>
      k - 1 == DecimalRunLength(s) && s[k - 1] == '%' && IsDecimal(s[..k - 1])
  {
    forall k | 2 <= k <= |s| && IsPercentToken(s[..k])
      ensures k - 1 == DecimalRunLength(s) && s[k - 1] == '%' && IsDecimal(s[..k - 1])
    {
      var w := s[..k];
      assert w[..k - 1] == s[..k - 1];
      DecimalChars(s[..k - 1]);
      assert forall i :: 0 <= i < k - 1 ==> s[..k - 1][i] == s[i];
      MaximalRun(s, IsDecimalChar, DecimalRunLength(s), k - 1);
    }
  }

  /** `RE_PERCENT` anchored at the start of `s`: the digit-and-dot run and the `%` after it. */
  function PercentAt(s: string): (r: Option<string>)
    ensures r.Some? ==> 2 <= |r.value| <= |s| && r.value == s[..|r.value|]
    ensures r.Some? ==> IsPercentToken(r.value)
    ensures forall k :: 2 <= k <= |s| && IsPercentToken(s[..k]) ==> r == Some(s[..k])
  {
    PercentPrefixIsRun(s);
    var k := DecimalRunLength(s);
    if k < |s| && s[k] == '%' && IsDecimal(s[..k]) then
      assert s[..k + 1][..k] == s[..k];
      Some(s[..k + 1])
    else None
  }

  /** An anchored matcher that only ever matches a non-empty prefix of its input. */
  ghost predicate PrefixMatcher(at: string -> Option<string>)
  {
    forall t :: at(t).Some? ==> 0 < |at(t).value| <= |t| && at(t).value == t[..|at(t).value|]
  }

  lemma PercentAtIsPrefixMatcher()
    ensures PrefixMatcher(PercentAt)
  {
  }

  /** One match `findall` reports: where it starts and its text. */
  datatype Hit = Hit(pos: nat, token: string)

  /**
   * The matches `findall` reports on `s` from index `p` on, for a pattern
   * whose anchored matcher is `at`: after a match the scan resumes where the
   * match ends, otherwise one character on.
   */
  function Hits(at: string -> Option<string>, s: string, p: nat): (r: seq<Hit>)
    requires PrefixMatcher(at) && p <= |s|
    decreases |s| - p
    ensures forall i :: 0 <= i < |r| ==>
      p <= r[i].pos && r[i].pos + |r[i].token| <= |s| && at(s[r[i].pos..]) == Some(r[i].token)
    ensures forall i, j :: 0 <= i < j < |r| ==> r[i].pos + |r[i].token| <= r[j].pos
  {
    if p == |s| then []
    else match at(s[p..])
      case Some(m) => [Hit(p, m)] + Hits(at, s, p + |m|)
      case None => Hits(at, s, p + 1)
  }

  /** Position `q` lies within one of `hits`. */
  predicate Covered(hits: seq<Hit>, q: nat)
  {
    exists i :: 0 <= i < |hits| && hits[i].pos <= q < hits[i].pos + |hits[i].token|
  }

  lemma CoveredCons(h: Hit, hits: seq<Hit>, q: nat)
    requires Covered(hits, q)
    ensures Covered([h] + hits, q)
  {
    var i :| 0 <= i < |hits| && hits[i].pos <= q < hits[i].pos + |hits[i].token|;
    assert ([h] + hits)[i + 1] == hits[i];
  }

  /** One step of the `findall` scan, when the pattern matches at `p`. */
  lemma HitsStep(at: string -> Option<string>, s: string, p: nat, m: string)
    requires PrefixMatcher(at) && p < |s| && at(s[p..]) == Some(m)
    ensures Hits(at, s, p) == [Hit(p, m)] + Hits(at, s, p + |m|)
  {
  }

  /** Every position where the pattern matches lies within one of the reported matches. */
  lemma {:induction false} HitsCover(at: string -> Option<string>, s: string, p: nat, q: nat)
    requires PrefixMatcher(at) && p <= q <= |s| && at(s[q..]).Some?
    ensures Covered(Hits(at, s, p), q)
    decreases |s| - p
  {
    assert p < |s|;
    if at(s[p..]).Some? {
      var m := at(s[p..]).value;
      HitsStep(at, s, p, m);
      var hits, tail := Hits(at, s, p), Hits(at, s, p + |m|);
      if q < p + |m| {
        assert hits[0].pos <= q < hits[0].pos + |hits[0].token|;
      } else {
        HitsCover(at, s, p + |m|, q);
        CoveredCons(Hit(p, m), tail, q);
      }
    } else {
      HitsCover(at, s, p + 1, q);
    }
  }

  /** Every position from the start of the last reported match on where the pattern matches lies inside that match. */
  lemma LastHitCoversRest(at: string -> Option<string>, s: string)
    requires PrefixMatcher(at) && Hits(at, s, 0) != []
    ensures var hits := Hits(at, s, 0); var h := hits[|hits| - 1];
      forall q :: h.pos <= q <= |s| && at(s[q..]).Some? ==> q < h.pos + |h.token|
  {
    var hits := Hits(at, s, 0);
    var h := hits[|hits| - 1];
    forall q | h.pos <= q <= |s| && at(s[q..]).Some?
      ensures q < h.pos + |h.token|
    {
      HitsCover(at, s, 0, q);
      CoveredFromLast(hits, q);
    }
  }

  /** In a list of non-overlapping matches in order, a covered position at or after the last start lies in the last match. */
  lemma CoveredFromLast(hits: seq<Hit>, q: nat)
    requires forall i, j :: 0 <= i < j < |hits| ==> hits[i].pos + |hits[i].token| <= hits[j].pos
    requires Covered(hits, q) && hits[|hits| - 1].pos <= q
    ensures q < hits[|hits| - 1].pos + |hits[|hits| - 1].token|
  {
    var i :| 0 <= i < |hits| && hits[i].pos <= q < hits[i].pos + |hits[i].token|;
  }

  /** Where the pattern matches nowhere from `p` on, nothing is reported. */
  lemma {:induction false} NoMatchNoHits(at: string -> Option<string>, s: string, p: nat)
    requires PrefixMatcher(at) && p <= |s| && forall q :: p <= q <= |s| ==> at(s[q..]).None?
    ensures Hits(at, s, p) == []
    decreases |s| - p
  {
    if p < |s| {
      assert at(s[p..]).None?;
      NoMatchNoHits(at, s, p + 1);
    }
  }

  /** `findall` reports nothing exactly when the pattern matches at no position of `s`. */
  lemma NoHitsIffNoMatch(at: string -> Option<string>, s: string)
    requires PrefixMatcher(at)
    ensures Hits(at, s, 0) == [] <==> forall q :: 0 <= q <= |s| ==> at(s[q..]).None?
  {
    if forall q :: 0 <= q <= |s| ==> at(s[q..]).None? {
      NoMatchNoHits(at, s, 0);
    }
    forall q | 0 <= q <= |s| && at(s[q..]).Some?
      ensures Hits(at, s, 0) != []
    {
      HitsCover(at, s, 0, q);
      assert Covered(Hits(at, s, 0), q);
    }
  }

  /** `RE_PERCENT.findall(s)`: the tokens of the matches, left to right. */
  function FindAllPercents(s: string): (r: seq<string>)
    ensures PrefixMatcher(PercentAt)
    ensures |r| == |Hits(PercentAt, s, 0)| && forall i :: 0 <= i < |r| ==> r[i] == Hits(PercentAt, s, 0)[i].token
    ensures forall i :: 0 <= i < |r| ==> IsPercentToken(r[i])
    ensures r == [] <==> forall q :: 0 <= q <= |s| ==> PercentAt(s[q..]).None?
  {
    PercentAtIsPrefixMatcher();
    NoHitsIffNoMatch(PercentAt, s);
    var hits := Hits(PercentAt, s, 0);
    seq(|hits|, (i: int) requires 0 <= i < |hits| => hits[i].token)
  }

  /** `g` is the rightmost match of `s`, found at some position. */
  ghost predicate LastMatchAt(at: string -> Option<string>, s: string, g: string)
  {
    exists p :: RightmostAt(at, s, p, g)
  }

  /**
   * `g` matches at position `p` of `s`, the pattern does not match one
   * position earlier, and every match starting from `p` on lies inside `g`.
   */
  ghost predicate RightmostAt(at: string -> Option<string>, s: string, p: int, g: string)
  {
    0 <= p <= |s| && at(s[p..]) == Some(g) && NoMatchBefore(at, s, p) &&
    forall q :: p <= q <= |s| && at(s[q..]).Some? ==> q < p + |g|
  }

  /** The pattern does not match at the position just before `p`. */
  ghost predicate NoMatchBefore(at: string -> Option<string>, s: string, p: nat)
    requires p <= |s|
  {
    p == 0 || at(s[p - 1..]).None?
  }

  /** `g` is the rightmost percent token of `s`. */
  ghost predicate LastTokenAt(s: string, g: string)
  {
    LastMatchAt(PercentAt, s, g)
  }

  /** Every match of `at` ends with `c`, and none starts with it. */
  ghost predicate Terminated(at: string -> Option<string>, c: char)
  {
    forall t :: at(t).Some? ==>
      at(t).value != [] && at(t).value[0] != c && at(t).value[|at(t).value| - 1] == c
  }

  /** A percent token ends with `%` and starts with a digit or a dot. */
  lemma PercentAtTerminated()
    ensures Terminated(PercentAt, '%')
  {
    forall u | PercentAt(u).Some?
      ensures PercentAt(u).value[0] != '%'
    {
      PercentTokenStart(PercentAt(u).value);
    }
  }

  /** A percent token starts with a digit or a dot, never with `%`. */
  lemma PercentTokenStart(m: string)
    requires IsPercentToken(m)
    ensures m[0] != '%'
  {
    DecimalChars(m[..|m| - 1]);
    assert m[..|m| - 1][0] == m[0];
  }

  /** A hit that ends at `e` puts the terminator `c` at `e - 1`. */
  lemma HitEndsWith(at: string -> Option<string>, s: string, h: Hit, c: char)
    requires PrefixMatcher(at) && Terminated(at, c)
    requires h.pos + |h.token| <= |s| && at(s[h.pos..]) == Some(h.token)
    ensures h.token != [] && s[h.pos + |h.token| - 1] == c
  {
    assert s[h.pos..][..|h.token|][|h.token| - 1] == s[h.pos + |h.token| - 1];
  }

  /** No match starts with the terminator `c`. */
  lemma MatchStartsOther(at: string -> Option<string>, s: string, q: nat, c: char)
    requires PrefixMatcher(at) && Terminated(at, c) && q <= |s| && at(s[q..]).Some?
    ensures q < |s| && s[q] != c
  {
    assert s[q..][..|at(s[q..]).value|][0] == s[q];
  }

  /** In a list of non-overlapping matches in order, a covered position just before the last start lies in a match that ends there. */
  lemma CoveringHitEndsAtLast(hits: seq<Hit>, q: nat) returns (i: nat)
    requires forall i, j :: 0 <= i < j < |hits| ==> hits[i].pos + |hits[i].token| <= hits[j].pos
    requires Covered(hits, q) && q + 1 == hits[|hits| - 1].pos
    ensures i < |hits| && hits[i].pos <= q && hits[i].pos + |hits[i].token| == q + 1
  {
    i :| 0 <= i < |hits| && hits[i].pos <= q < hits[i].pos + |hits[i].token|;
  }

  /** The pattern does not match just before the last reported match. */
  lemma LastHitUnextended(at: string -> Option<string>, s: string, c: char)
    requires PrefixMatcher(at) && Terminated(at, c) && Hits(at, s, 0) != []
    ensures var hits := Hits(at, s, 0); NoMatchBefore(at, s, hits[|hits| - 1].pos)
  {
    var hits := Hits(at, s, 0);
    var h := hits[|hits| - 1];
    if h.pos > 0 && at(s[h.pos - 1..]).Some? {
      HitsCover(at, s, 0, h.pos - 1);
      var i := CoveringHitEndsAtLast(hits, h.pos - 1);
      MatchStartsOther(at, s, h.pos - 1, c);
      HitEndsWith(at, s, hits[i], c);
      assert false;
    }
  }

  /** The last match the scan reports is the rightmost match in `s`. */
  lemma LastHitIsLastMatch(at: string -> Option<string>, s: string, c: char)
    requires PrefixMatcher(at) && Terminated(at, c) && Hits(at, s, 0) != []
    ensures var hits := Hits(at, s, 0); LastMatchAt(at, s, hits[|hits| - 1].token)
  {
    var hits := Hits(at, s, 0);
    LastHitCoversRest(at, s);
    LastHitUnextended(at, s, c);
    var h := hits[|hits| - 1];
    assert RightmostAt(at, s, h.pos, h.token);
  }

  /** A decimal stays a decimal when characters are cut from its front. */
  lemma DecimalSuffix(w: string, j: nat)
    requires IsDecimal(w) && j < |w|
    ensures IsDecimal(w[j..])
  {
    var d := DigitCount(w);
    var u := w[j..];
    if d == |w| {
      assert AllDigits(w[..d]) && w[..d] == w;
      assert DigitCount(u) == |u|;
    } else if j <= d {
      assert forall i :: 0 <= i < d - j ==> u[i] == w[..d][j + i];
      assert u[d - j] == '.';
      assert DigitCount(u) == d - j;
      assert u[d - j + 1..] == w[d + 1..];
    } else {
      assert forall i :: 0 <= i < |u| ==> u[i] == w[d + 1..][j - d - 1 + i];
      assert DigitCount(u) == |u|;
    }
  }

  /**
   * A percent match starting strictly inside the match `g1` at `p1` is a
   * suffix of `g1`, and so the pattern also matches one position before it.
   */
  lemma MatchInsideExtends(s: string, p1: nat, g1: string, p2: nat)
    requires p1 < p2 <= |s| && PercentAt(s[p1..]) == Some(g1) && p2 < p1 + |g1|
    requires PercentAt(s[p2..]).Some?
    ensures PercentAt(s[p2 - 1..]).Some?
  {
    var g2 := PercentAt(s[p2..]).value;
    PercentTokenStart(g2);
    assert s[p2] == g2[0] != '%';
    assert s[p1 + |g1| - 1] == g1[|g1| - 1] == '%';
    var j := p2 - 1 - p1;
    PercentTokenSuffix(g1, j);
    var m := g1[j..];
    assert s[p2 - 1..][..|m|] == m;
  }

  /** Cutting characters from the front of a percent token, short of its last digit, leaves a percent token. */
  lemma PercentTokenSuffix(g: string, j: nat)
    requires IsPercentToken(g) && j <= |g| - 2
    ensures IsPercentToken(g[j..])
  {
    var w := g[..|g| - 1];
    DecimalSuffix(w, j);
    assert g[j..][..|g| - j - 1] == w[j..];
  }

  /** At most one token is the rightmost percent token of `s`. */
  lemma LastTokenUnique(s: string, g1: string, g2: string)
    requires LastTokenAt(s, g1) && LastTokenAt(s, g2)
    ensures g1 == g2
  {
    var p1 :| RightmostAt(PercentAt, s, p1, g1);
    var p2 :| RightmostAt(PercentAt, s, p2, g2);
    if p1 < p2 {
      MatchInsideExtends(s, p1, g1, p2);
    } else if p2 < p1 {
      MatchInsideExtends(s, p2, g2, p1);
    }
  }

  /** The last token `findall` reports is the rightmost percent token of `s`; by `LastTokenUnique` it is the only one. */
  lemma LastPercentToken(s: string, g: string)
    requires FindAllPercents(s) != [] && g == FindAllPercents(s)[|FindAllPercents(s)| - 1]
    ensures LastTokenAt(s, g)
  {
    PercentAtIsPrefixMatcher();
    assert g == Hits(PercentAt, s, 0)[|FindAllPercents(s)| - 1].token;
    PercentAtTerminated();
    LastHitIsLastMatch(PercentAt, s, '%');
  }

  // ---------------------------------------------------------------------
  // The compiled patterns, as one value
  // ---------------------------------------------------------------------

  /** The recognizers the scanner calls on each line, one per `RE_*` pattern. */
  datatype Patterns = Patterns(
    timeLimit: string -> bool,
    optimal: string -> bool,
    best: string -> Option<BestLine>,
    explored: string -> Option<ExploredLine>,
    tableHeader: string -> bool,
    progressRowStart: string -> bool,
    percents: string -> seq<string>)

  /** `RE_TIME_LIMIT`, `RE_OPTIMAL`, `RE_BEST_LINE`, `RE_EXPLORED`, `RE_TABLE_HEADER`, `RE_PROGRESS_ROW_START`, `RE_PERCENT`. */
  const Library: Patterns :=
    Patterns(HasTimeLimit, HasOptimal, BestSearch, ExploredSearch, HasTableHeader, ProgressRowStart, FindAllPercents)
}
