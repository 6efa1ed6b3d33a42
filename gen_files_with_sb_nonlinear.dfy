/**
 * src/gen_files_with_sb_nonlinear.py: the same splice as
 * src/gen_files_with_sbs.py, for the nonlinear symmetry breakers. Outputs
 * are named `<stem>_nonlin.lp`, and an empty snippet list is not an error:
 * nothing is written.
 *
 * Command-line parsing, the `--pattern` glob and file I/O are not modelled:
 * the listing is the files the pattern selected.
 */
module GenFilesWithSbNonlinear {
  import opened Wrappers
  import opened LpSplice
  import opened SnippetFiles

  /** The body of `main` after argument parsing. */
  method Generate(base: seq<string>, listing: seq<Snippet>) returns (r: Result<seq<OutFile>, SpliceError>)
    ensures FindBinary(base).None? ==> r == Failure(NoBinarySection)
    ensures FindBinary(base).Some? ==>
              r == Success(Outputs(base, FindBinary(base).value, SortByName(listing), "_nonlin.lp"))
    ensures r.Success? ==> |r.value| == |listing|
  {
    var insertAt := FindBinary(base);
    if insertAt.None? {
      return Failure(NoBinarySection);
    }
    var outs := SpliceAll(base, insertAt.value, SortByName(listing), "_nonlin.lp");
    return Success(outs);
  }
}
