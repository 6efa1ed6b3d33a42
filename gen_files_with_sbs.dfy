/**
 * src/gen_files_with_sbs.py: validates its three `key=value` arguments, then
 * writes one copy of the base LP per snippet file, with the snippet's
 * constraints spliced in before the `Binary` section, named `<stem>.lp`.
 *
 * Reading and writing files, creating the output directory and the checks
 * that the base file and the snippet directory exist are not modelled: the
 * base arrives as its lines, the directory as the list of its files.
 */
module GenFilesWithSbs {
  import opened Wrappers
  import opened LpSplice
  import opened SnippetFiles
  import KvArgs

  /** `REQUIRED_KEYS`, in the order missing ones are reported. */
  const RequiredKeys: seq<string> := ["base_lp_file", "sbs_dir", "gen_lp_files"]

  /** `_parse_kv_args(argv)`: `argv[0]` is the program name, the rest are `key=value` tokens. */
  method ParseKvArgs(argv: seq<string>) returns (r: KvArgs.Outcome)
    requires |argv| >= 1
    ensures r == KvArgs.Parse(KvArgs.SplitToken, argv[1..], RequiredKeys)
    ensures r.Parsed? ==> r.kv.Keys == {"base_lp_file", "sbs_dir", "gen_lp_files"}
                          && forall k :: k in r.kv ==> r.kv[k] != ""
  {
    r := KvArgs.ParseArgs(argv[1..], RequiredKeys);
    KvArgs.ParsedHasExactlyRequiredKeys(KvArgs.SplitToken, argv[1..], RequiredKeys);
    KvArgs.KeySetOfThree("base_lp_file", "sbs_dir", "gen_lp_files");
  }

  /** The two ways the generator stops before writing anything. */
  datatype GenError = NoBinarySection | NoConstraintFiles

  /**
   * The body of `main` after argument parsing: `Binary` header search, the
   * sorted snippet list (an error when empty), and one output per snippet.
   */
  method Generate(base: seq<string>, listing: seq<Snippet>) returns (r: Result<seq<OutFile>, GenError>)
    ensures FindBinary(base).None? ==> r == Failure(GenError.NoBinarySection)
    ensures FindBinary(base).Some? && listing == [] ==> r == Failure(NoConstraintFiles)
    ensures FindBinary(base).Some? && listing != [] ==>
              r == Success(Outputs(base, FindBinary(base).value, SortByName(listing), ".lp"))
  {
    var insertAt := FindBinary(base);
    if insertAt.None? {
      return Failure(GenError.NoBinarySection);
    }
    var sorted := SortByName(listing);
    if sorted == [] {
      return Failure(NoConstraintFiles);
    }
    var outs := SpliceAll(base, insertAt.value, sorted, ".lp");
    return Success(outs);
  }
}
