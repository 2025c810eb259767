/** The file-name decisions of `save_output` (and the image path of the plotter). */
module Writer {
  import opened Strings

  /** The fixed output directory. */
  const OutputDir: string := "output_data"

  /** `output_path` after line 80: `.csv` is appended unless the name already ends with it in any case. */
  function NormaliseName(name: string): (r: string)
    ensures EndsWith(Lower(r), ".csv")
    ensures |name| <= |r| && r[..|name|] == name
    ensures r != name <==> !EndsWith(Lower(name), ".csv")
    ensures r != name ==> r == name + ".csv"
  {
    if EndsWith(Lower(name), ".csv") then name
    else
      LowerAppend(name, ".csv");
      assert Lower(".csv") == ".csv";
      assert (Lower(name) + ".csv")[|name|..] == ".csv";
      name + ".csv"
  }

  /** Normalising a normalised name changes nothing. */
  lemma NormaliseIdempotent(name: string)
    ensures NormaliseName(NormaliseName(name)) == NormaliseName(name)
  {
  }

  /**
   * POSIX `os.path.join(dir, name)`: an absolute `name` replaces the
   * directory; otherwise a separator is inserted unless `dir` is empty or
   * already ends with one.
   */
  function Join(dir: string, name: string): (r: string)
    ensures |name| > 0 && name[0] == '/' ==> r == name
    ensures name == [] || name[0] != '/' ==>
      && |dir| + |name| <= |r| <= |dir| + 1 + |name|
      && r[..|dir|] == dir
      && r[|r| - |name|..] == name
      && (dir != [] ==> r[|r| - |name| - 1] == '/')
  {
    if |name| > 0 && name[0] == '/' then name
    else if dir == [] || dir[|dir| - 1] == '/' then dir + name
    else dir + "/" + name
  }

  /** A relative name lands directly inside the output directory. */
  lemma JoinRelative(name: string)
    requires name == [] || name[0] != '/'
    ensures Join(OutputDir, name) == OutputDir + "/" + name
  {
  }

  /**
   * `save_output(data, output_path)` without the write itself: `dirExists`
   * stands for `os.path.exists(OUTPUT_DIR)`; `makeDir` says whether
   * `os.mkdir` is called and `fullPath` is where `to_csv` writes.
   */
  method SaveOutput(outputPath: string, dirExists: bool) returns (makeDir: bool, fullPath: string)
    ensures makeDir == !dirExists
    ensures fullPath == Join(OutputDir, NormaliseName(outputPath))
  {
    var name := outputPath;
    if !EndsWith(Lower(name), ".csv") {
      name := name + ".csv";
    }
    makeDir := !dirExists;
    fullPath := Join(OutputDir, name);
  }

  /**
   * For a relative output name the written file is `output_data/<name>`,
   * with `.csv` appended when missing, and always ends in `.csv` ignoring case.
   */
  lemma SavedPath(outputPath: string)
    requires outputPath == [] || outputPath[0] != '/'
    ensures var p := Join(OutputDir, NormaliseName(outputPath));
      && p == OutputDir + "/" + NormaliseName(outputPath)
      && EndsWith(Lower(p), ".csv")
  {
    var n := NormaliseName(outputPath);
    JoinRelative(n);
    LowerAppend(OutputDir + "/", n);
    var p := OutputDir + "/" + n;
    assert Lower(p)[|Lower(p)| - 4..] == Lower(n)[|Lower(n)| - 4..];
  }

  /** A name without an extension gets `.csv` appended. */
  lemma BareNameGetsExtension()
    ensures NormaliseName("results") == "results.csv"
  {
    NormaliseResults("results", "results.csv");
  }

  lemma NormaliseResults(s: string, withExtension: string)
    requires s == "results" && withExtension == "results.csv"
    ensures NormaliseName(s) == withExtension
  {
    assert withExtension == s + ".csv";
    assert s[0] == 'r' && s[1] == 'e' && s[2] == 's' && s[3] == 'u' && s[4] == 'l' && s[5] == 't' && s[6] == 's';
    LowerOfLowered(s);
    assert s[3..][0] != '.';
  }

  /** A name that already ends in `.CSV` keeps its own spelling. */
  lemma UpperCaseExtensionKept(stem: string)
    ensures NormaliseName(stem + ".CSV") == stem + ".CSV"
  {
    var n := stem + ".CSV";
    EndsWithLower(n, ".csv");
    assert n[|n| - 4..] == ".CSV";
    assert Lower(".CSV") == ".csv";
  }
}
