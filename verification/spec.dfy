/** The test specification record, one per entry of the CSVW RDF manifest. */
module TestSpec {
  import opened Wrappers

  /** The outcome a test expects: success, success with warnings, or failure. */
  datatype SpecType = PASS | WARN | ERROR

  /**
   * A manifest entry. `action`, `result` and `noProvenance` can be missing at run time
   * (the manifest field was absent), so they are optional here.
   */
  datatype Spec = Spec(
    name: string,
    action: Option<string>,
    result: Option<string>,
    implicit: seq<string>,
    specType: SpecType,
    noProvenance: Option<bool>)
}
