/**
 * The `key=value` command-line validator that src/extract_to_csv.py
 * (`parse_kv_args`) and src/gen_files_with_sbs.py (`_parse_kv_args`) both
 * implement, line for line, over their own list of required keys.
 *
 * `Parse` is the specification; `ParseArgs` is the source's loop that fills
 * the dictionary token by token and is proved to compute `Parse`.
 */
module KvArgs {
  import opened Wrappers
  import opened Text

  /** The reasons the validator exits with an error, in the order it checks them. */
  datatype ArgError =
    | ExpectedKeyValue(token: string)
    | EmptyKey(token: string)
    | DuplicateArgument(key: string)
    | MissingMandatory(keys: seq<string>)
    | UnknownArguments(keys: seq<string>)

  /** Usage printed with exit status 0, a dictionary of arguments, or an error exit. */
  datatype Outcome = ShowUsage | Parsed(kv: map<string, string>) | Failed(error: ArgError)

  /** The dictionary `kv` together with the order in which its keys were inserted. */
  datatype Pairs = Pairs(keys: seq<string>, kv: map<string, string>)

  /** A lone `-h` or `--help`. */
  predicate IsHelp(args: seq<string>)
  {
    |args| == 1 && (args[0] == "-h" || args[0] == "--help")
  }

  /** `v.strip().strip('"').strip("'")`. */
  function CleanValue(v: string): (r: string)
    ensures r == [] || (r[0] != '\'' && r[|r| - 1] != '\'')
  {
    Strip(Strip(StripSpace(v), {'"'}), {'\''})
  }

  /** The characters `CleanValue` may cut off either end of a value. */
  const ValueQuotes: set<char> := Whitespace + {'"'} + {'\''}

  /**
   * The cleaned value is a slice of the raw value: only whitespace and quote
   * characters are cut off, and no `'` is left at either end.
   */
  lemma CleanValueIsSlice(v: string) returns (a: nat, b: nat)
    ensures a <= b <= |v| && CleanValue(v) == v[a..b]
    ensures forall i :: 0 <= i < a || b <= i < |v| ==> v[i] in ValueQuotes
    ensures CleanValue(v) == [] || (CleanValue(v)[0] != '\'' && CleanValue(v)[|CleanValue(v)| - 1] != '\'')
  {
    var a1, b1 := StripIsSlice(v, Whitespace);
    var a2, b2 := StripOfSlice(v, a1, b1, Whitespace, {'"'});
    a, b := StripOfSlice(v, a2, b2, Whitespace + {'"'}, {'\''});
  }

  /** `tok.split("=", 1)` with the key stripped and the value cleaned; `None` when `tok` has no `=`. */
  function SplitToken(tok: string): (r: Option<(string, string)>)
    ensures r.None? <==> '=' !in tok
    ensures r.Some? ==> exists i :: 0 <= i < |tok| && tok[i] == '=' && '=' !in tok[..i] &&
                                    r.value == (StripSpace(tok[..i]), CleanValue(tok[i + 1..]))
  {
    match IndexOf(tok, '=')
    case None => None
    case Some(i) => Some((StripSpace(tok[..i]), CleanValue(tok[i + 1..])))
  }

  /**
   * How a token is cut into a key and a value. The validator uses
   * `SplitToken`; the loop and the lemmas below hold for any splitter.
   */
  type Splitter = string -> Option<(string, string)>

  /** One iteration of the token loop. */
  function AddToken(split: Splitter, p: Pairs, tok: string): Result<Pairs, ArgError>
  {
    match split(tok)
    case None => Failure(ExpectedKeyValue(tok))
    case Some((k, v)) =>
      if k == "" then Failure(EmptyKey(tok))
      else if k in p.kv then Failure(DuplicateArgument(k))
      else Success(Pairs(p.keys + [k], p.kv[k := v]))
  }

  /** The token loop over all of `args`: the first bad token stops it. */
  function Collect(split: Splitter, args: seq<string>): (r: Result<Pairs, ArgError>)
    ensures r.Failure? ==> r.error.ExpectedKeyValue? || r.error.EmptyKey? || r.error.DuplicateArgument?
    decreases |args|
  {
    if args == [] then Success(Pairs([], map[]))
    else
      var p :- Collect(split, args[..|args| - 1]);
      AddToken(split, p, args[|args| - 1])
  }

  /** `[k for k in REQUIRED_KEYS if k not in kv or kv[k] == ""]`; order is kept (see `MissingKeysAppend`). */
  function MissingKeys(required: seq<string>, kv: map<string, string>): (r: seq<string>)
    ensures forall k :: k in r <==> k in required && (k !in kv || kv[k] == "")
    ensures |r| <= |required|
  {
    if required == [] then []
    else
      (if required[0] !in kv || kv[required[0]] == "" then [required[0]] else [])
      + MissingKeys(required[1..], kv)
  }

  /** `[k for k in kv.keys() if k not in REQUIRED_KEYS]`, in insertion order (see `UnknownKeysAppend`). */
  function UnknownKeys(keys: seq<string>, required: seq<string>): (r: seq<string>)
    ensures forall k :: k in r <==> k in keys && k !in required
    ensures |r| <= |keys|
  {
    if keys == [] then []
    else (if keys[0] !in required then [keys[0]] else []) + UnknownKeys(keys[1..], required)
  }

  /**
   * The missing keys of a concatenation are those of the first part followed
   * by those of the second: the comprehension keeps the order of `required`.
   */
  lemma {:induction false} MissingKeysAppend(a: seq<string>, b: seq<string>, kv: map<string, string>)
    ensures MissingKeys(a + b, kv) == MissingKeys(a, kv) + MissingKeys(b, kv)
  {
    if a != [] {
      assert (a + b)[1..] == a[1..] + b;
      MissingKeysAppend(a[1..], b, kv);
    } else {
      assert a + b == b;
    }
  }

  /**
   * The unknown keys of a concatenation are those of the first part followed
   * by those of the second: the comprehension keeps insertion order.
   */
  lemma {:induction false} UnknownKeysAppend(a: seq<string>, b: seq<string>, required: seq<string>)
    ensures UnknownKeys(a + b, required) == UnknownKeys(a, required) + UnknownKeys(b, required)
  {
    if a != [] {
      assert (a + b)[1..] == a[1..] + b;
      UnknownKeysAppend(a[1..], b, required);
    } else {
      assert a + b == b;
    }
  }

  /** What the validator does with the arguments after the program name. */
  function Parse(split: Splitter, args: seq<string>, required: seq<string>): Outcome
  {
    if IsHelp(args) then ShowUsage
    else match Collect(split, args)
      case Failure(e) => Failed(e)
      case Success(p) =>
        var missing := MissingKeys(required, p.kv);
        if missing != [] then Failed(MissingMandatory(missing))
        else
          var unknown := UnknownKeys(p.keys, required);
          if unknown != [] then Failed(UnknownArguments(unknown))
          else Parsed(p.kv)
  }

  /** The validator as written: a loop that fills `kv`, then the two list comprehensions. */
  method ParseArgs(args: seq<string>, required: seq<string>) returns (r: Outcome)
    ensures r == Parse(SplitToken, args, required)
  {
    if |args| == 1 && (args[0] == "-h" || args[0] == "--help") {
      return ShowUsage;
    }
    var keys: seq<string> := [];
    var kv: map<string, string> := map[];
    for i := 0 to |args|
      invariant Collect(SplitToken, args[..i]) == Success(Pairs(keys, kv))
    {
      var tok := args[i];
      CollectStep(SplitToken, args, i);
      var split := SplitToken(tok);
      if split.None? {
        CollectStopsAtFirstError(SplitToken, args, i + 1);
        return Failed(ExpectedKeyValue(tok));
      }
      var (key, value) := split.value;
      if key == "" {
        CollectStopsAtFirstError(SplitToken, args, i + 1);
        return Failed(EmptyKey(tok));
      }
      if key in kv {
        CollectStopsAtFirstError(SplitToken, args, i + 1);
        return Failed(DuplicateArgument(key));
      }
      keys := keys + [key];
      kv := kv[key := value];
    }
    assert args[..|args|] == args;
    var missing := MissingKeys(required, kv);
    if missing != [] {
      return Failed(MissingMandatory(missing));
    }
    var unknown := UnknownKeys(keys, required);
    if unknown != [] {
      return Failed(UnknownArguments(unknown));
    }
    return Parsed(kv);
  }

  /** One more token: the loop over `args[..i + 1]` is one `AddToken` after the loop over `args[..i]`. */
  lemma CollectStep(split: Splitter, args: seq<string>, i: nat)
    requires i < |args| && Collect(split, args[..i]).Success?
    ensures Collect(split, args[..i + 1]) == AddToken(split, Collect(split, args[..i]).value, args[i])
  {
    assert args[..i + 1][..i] == args[..i];
  }

  /** An error in the first `n` tokens is the error of the whole loop. */
  lemma {:induction false} CollectStopsAtFirstError(split: Splitter, args: seq<string>, n: nat)
    requires n <= |args| && Collect(split, args[..n]).Failure?
    ensures Collect(split, args) == Collect(split, args[..n])
    decreases |args| - n
  {
    if n < |args| {
      assert args[..n + 1][..n] == args[..n];
      CollectStopsAtFirstError(split, args, n + 1);
    } else {
      assert args[..n] == args;
    }
  }

  /**
   * `p` is what the loop builds from `args`: one key per token, in order,
   * distinct and non-empty, and the dictionary maps each key to its token's
   * cleaned value and holds nothing else.
   */
  ghost predicate BuiltFrom(split: Splitter, args: seq<string>, p: Pairs)
  {
    |p.keys| == |args|
    && (forall k :: k in p.kv <==> k in p.keys)
    && (forall i :: 0 <= i < |args| ==> p.keys[i] in p.kv && split(args[i]) == Some((p.keys[i], p.kv[p.keys[i]])))
    && (forall i, j :: 0 <= i < j < |args| ==> p.keys[i] != p.keys[j])
    && (forall i :: 0 <= i < |args| ==> p.keys[i] != "")
  }

  /** The key set of a two-key list. */
  lemma KeySetOfTwo(a: string, b: string)
    ensures (set k | k in [a, b]) == {a, b}
  {
  }

  /** The key set of a three-key list. */
  lemma KeySetOfThree(a: string, b: string, c: string)
    ensures (set k | k in [a, b, c]) == {a, b, c}
  {
  }

  /** A successful loop builds its pairs from the tokens. */
  lemma {:induction false} CollectedPairs(split: Splitter, args: seq<string>)
    requires Collect(split, args).Success?
    ensures BuiltFrom(split, args, Collect(split, args).value)
    decreases |args|
  {
    if args != [] {
      var front, tok := args[..|args| - 1], args[|args| - 1];
      CollectedPairs(split, front);
      var q := Collect(split, front).value;
      var k, v := AddTokenStep(split, q, tok);
      assert Collect(split, args) == AddToken(split, q, tok);
      ExtendBuilt(split, args, q, k, v);
    }
  }

  /** The pair a successful step adds: the token's key, new and non-empty, with its value. */
  lemma {:induction false} AddTokenStep(split: Splitter, q: Pairs, tok: string) returns (k: string, v: string)
    requires AddToken(split, q, tok).Success?
    ensures split(tok) == Some((k, v)) && k != "" && k !in q.kv
    ensures AddToken(split, q, tok).value == Pairs(q.keys + [k], q.kv[k := v])
  {
    k, v := split(tok).value.0, split(tok).value.1;
  }

  /** Adding one new, non-empty key from the next token keeps `BuiltFrom`. */
  lemma {:induction false} ExtendBuilt(split: Splitter, args: seq<string>, q: Pairs, k: string, v: string)
    requires args != [] && BuiltFrom(split, args[..|args| - 1], q)
    requires split(args[|args| - 1]) == Some((k, v)) && k != "" && k !in q.kv
    ensures BuiltFrom(split, args, Pairs(q.keys + [k], q.kv[k := v]))
  {
    var front := args[..|args| - 1];
    assert forall i :: 0 <= i < |front| ==> front[i] == args[i];
  }

  /** A successful parse holds exactly the required keys, each with a non-empty value taken from its token. */
  lemma {:induction false} ParsedHasExactlyRequiredKeys(split: Splitter, args: seq<string>, required: seq<string>)
    ensures Parse(split, args, required).Parsed? ==>
              var kv := Parse(split, args, required).kv;
              kv.Keys == (set k | k in required)
              && (forall k :: k in kv ==> kv[k] != "")
              && (forall k :: k in kv ==> exists i :: 0 <= i < |args| && split(args[i]) == Some((k, kv[k])))
  {
    if Parse(split, args, required).Parsed? {
      CollectedPairs(split, args);
      var p := Collect(split, args).value;
      assert MissingKeys(required, p.kv) == [] && UnknownKeys(p.keys, required) == [];
      assert Parse(split, args, required).kv == p.kv;
      NothingMissingOrUnknown(p, required);
      ValuesFromTokens(split, args, p);
    }
  }

  /** With no key missing and none unknown, the dictionary holds exactly the required keys, none of them empty. */
  lemma NothingMissingOrUnknown(p: Pairs, required: seq<string>)
    requires forall k :: k in p.kv <==> k in p.keys
    requires MissingKeys(required, p.kv) == [] && UnknownKeys(p.keys, required) == []
    ensures p.kv.Keys == (set k | k in required) && forall k :: k in p.kv ==> p.kv[k] != ""
  {
    forall k | k in p.kv
      ensures k in required && p.kv[k] != ""
    {
      assert k !in UnknownKeys(p.keys, required);
    }
    forall k | k in required
      ensures k in p.kv
    {
      assert k !in MissingKeys(required, p.kv);
    }
  }

  /** Every value in pairs built from `args` is the cleaned value of some token with that key. */
  lemma ValuesFromTokens(split: Splitter, args: seq<string>, p: Pairs)
    requires BuiltFrom(split, args, p)
    ensures forall k :: k in p.kv ==> exists i :: 0 <= i < |args| && split(args[i]) == Some((k, p.kv[k]))
  {
    forall k | k in p.kv
      ensures exists i :: 0 <= i < |args| && split(args[i]) == Some((k, p.kv[k]))
    {
      var i :| 0 <= i < |p.keys| && p.keys[i] == k;
      assert split(args[i]) == Some((k, p.kv[k]));
    }
  }

  /**
   * The errors come in the source's order: a bad token is reported before
   * anything else; missing keys are reported only when every token was
   * well formed; unknown keys only when no required key is missing or empty.
   */
  lemma {:induction false} ErrorPrecedence(split: Splitter, args: seq<string>, required: seq<string>)
    ensures Parse(split, args, required) == ShowUsage <==> IsHelp(args)
    ensures !IsHelp(args) && Collect(split, args).Failure? ==> Parse(split, args, required) == Failed(Collect(split, args).error)
    ensures Parse(split, args, required).Failed? && Parse(split, args, required).error.MissingMandatory? ==>
              Collect(split, args).Success? && Parse(split, args, required).error.keys != []
              && forall k :: k in Parse(split, args, required).error.keys ==> k in required
    ensures Parse(split, args, required).Failed? && Parse(split, args, required).error.UnknownArguments? ==>
              Collect(split, args).Success?
              && (forall k :: k in required ==> k in Collect(split, args).value.kv && Collect(split, args).value.kv[k] != "")
              && Parse(split, args, required).error.keys != []
              && forall k :: k in Parse(split, args, required).error.keys ==> k !in required
  {
  }
}
