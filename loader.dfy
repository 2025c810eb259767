/** The path checks of `load_csv`. */
module Loader {
  import opened Wrappers
  import opened Strings
  import opened Tables

  /**
   * `load_csv(path)`: `pathExists` stands for `os.path.exists(path)` and `parsed`
   * for the outcome of `pd.read_csv` (None when it raises).
   */
  function LoadCsv(path: string, pathExists: bool, parsed: Option<Table>): (r: Result<Table, Error>)
    ensures !pathExists ==> r == Failure(FileNotFound)
    ensures pathExists && !EndsWith(Lower(path), ".csv") ==> r == Failure(NotCsv)
    ensures pathExists && EndsWith(Lower(path), ".csv") ==>
      r == if parsed.Some? then Success(parsed.value) else Failure(LoadFailed)
    ensures r.Success? <==> pathExists && EndsWith(Lower(path), ".csv") && parsed.Some?
  {
    if !pathExists then Failure(FileNotFound)
    else if !EndsWith(Lower(path), ".csv") then Failure(NotCsv)
    else if parsed.None? then Failure(LoadFailed)
    else Success(parsed.value)
  }

  /** The existence check comes first: a missing path is reported whatever its extension. */
  lemma NotFoundBeforeFormat(path: string, parsed: Option<Table>)
    ensures LoadCsv(path, false, parsed) == Failure(FileNotFound)
  {
  }

  /** A `.txt` path that exists is rejected for its format. */
  lemma TxtRejected(stem: string, parsed: Option<Table>)
    ensures LoadCsv(stem + ".txt", true, parsed) == Failure(NotCsv)
  {
    var p := stem + ".txt";
    EndsWithLower(p, ".csv");
    assert p[|p| - 4..] == ".txt";
    assert Lower(".txt") == ".txt";
  }

  /** The extension test ignores case: `DATA.CSV` is accepted. */
  lemma UpperCaseExtensionAccepted(stem: string, t: Table)
    ensures LoadCsv(stem + ".CSV", true, Some(t)) == Success(t)
  {
    var p := stem + ".CSV";
    EndsWithLower(p, ".csv");
    assert p[|p| - 4..] == ".CSV";
    assert Lower(".CSV") == ".csv";
  }
}
