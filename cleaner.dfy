/** `clean_data`: three successive row filters over the loaded table. */
module Cleaner {
  import opened Wrappers
  import opened Strings
  import opened Sequences
  import opened Tables

  /** `dropna(subset=['response'])` keeps a row whose response is not missing. */
  predicate HasResponse(r: Row) {
    Cell(r, "response") != Missing
  }

  /** `~data['treatment'].str.lower().eq('none')`: a missing treatment is kept. */
  predicate TreatmentNotNone(r: Row) {
    !LowerIs(Cell(r, "treatment"), "none")
  }

  predicate ProjectNotNone(r: Row) {
    !LowerIs(Cell(r, "project"), "none")
  }

  /** The three keep conditions together. */
  predicate KeepRow(r: Row)
    ensures Cell(r, "response") == Missing ==> !KeepRow(r)
    ensures Cell(r, "treatment").Text? && Lower(Cell(r, "treatment").s) == "none" ==> !KeepRow(r)
    ensures Cell(r, "project").Text? && Lower(Cell(r, "project").s) == "none" ==> !KeepRow(r)
    ensures Cell(r, "response") != Missing && !Cell(r, "treatment").Text? && !Cell(r, "project").Text? ==> KeepRow(r)
  {
    HasResponse(r) && TreatmentNotNone(r) && ProjectNotNone(r)
  }

  predicate HasResponseAndTreatmentOk(r: Row) {
    HasResponse(r) && TreatmentNotNone(r)
  }

  /**
   * `clean_data(data)`, filter by filter as the code applies them; each
   * lookup of an absent column raises a KeyError naming it.
   */
  function CleanData(t: Table): (r: Result<Table, Error>)
    ensures r.Failure? <==> !({"response", "treatment", "project"} <= set c | c in t.columns)
    ensures "response" !in t.columns ==> r == Failure(KeyError(["response"]))
    ensures "response" in t.columns && "treatment" !in t.columns ==> r == Failure(KeyError(["treatment"]))
    ensures "response" in t.columns && "treatment" in t.columns && "project" !in t.columns ==>
      r == Failure(KeyError(["project"]))
    ensures r.Success? ==> r.value.columns == t.columns && |r.value.rows| <= |t.rows|
  {
    if "response" !in t.columns then Failure(KeyError(["response"]))
    else
      var withResponse := Filter(t.rows, HasResponse);
      if "treatment" !in t.columns then Failure(KeyError(["treatment"]))
      else
        var treated := Filter(withResponse, TreatmentNotNone);
        if "project" !in t.columns then Failure(KeyError(["project"]))
        else Success(Table(t.columns, Filter(treated, ProjectNotNone)))
  }

  /** The three successive filters are one filter by KeepRow. */
  lemma CleanIsOneFilter(t: Table)
    requires {"response", "treatment", "project"} <= set c | c in t.columns
    ensures CleanData(t) == Success(Table(t.columns, Filter(t.rows, KeepRow)))
  {
    FilterThenFilter(t.rows, HasResponse, TreatmentNotNone, HasResponseAndTreatmentOk);
    FilterThenFilter(t.rows, HasResponseAndTreatmentOk, ProjectNotNone, KeepRow);
  }

  /**
   * The cleaned table holds exactly the rows whose response is present and
   * whose lower-cased treatment and project are not "none", in their original
   * relative order: its k-th row is the input row at the k-th kept position,
   * and the kept positions are increasing.
   */
  lemma CleanKeepsExactly(t: Table)
    requires {"response", "treatment", "project"} <= set c | c in t.columns
    ensures CleanData(t).Success?
    ensures var out := CleanData(t).value.rows;
      var idx := KeptIndices(t.rows, KeepRow);
      && |out| == |idx|
      && StrictlyIncreasing(idx)
      && (forall k :: 0 <= k < |idx| ==> idx[k] < |t.rows| && out[k] == t.rows[idx[k]])
      && (forall i :: 0 <= i < |t.rows| ==> (i in idx <==> KeepRow(t.rows[i])))
  {
    CleanIsOneFilter(t);
    FilterExactly(t.rows, KeepRow);
  }

  /** A row with a missing treatment or project, but a response, survives. */
  lemma MissingTreatmentKept(r: Row)
    requires HasResponse(r)
    requires Cell(r, "treatment") == Missing && Cell(r, "project") == Missing
    ensures KeepRow(r)
  {
  }

  /** Cleaning a cleaned table changes nothing. */
  lemma CleanIdempotent(t: Table)
    requires CleanData(t).Success?
    ensures CleanData(CleanData(t).value) == CleanData(t)
  {
    var once := CleanData(t).value;
    CleanIsOneFilter(t);
    CleanIsOneFilter(once);
    FilterIdempotent(t.rows, KeepRow);
  }
}
