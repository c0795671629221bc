/**
 * `crawlTests`: one test specification per `dt` of the manifest's RDF test list. The i-th `dt`
 * gives the name; the definition list inside the i-th `dd` gives the fields.
 */
module CrawlTests {
  import opened Wrappers
  import opened Strings
  import opened Utils
  import opened TestSpec

  /** The closed three-way classification of the manifest's `type` field. */
  function ClassifyType(t: Option<string>): (r: SpecType)
    ensures r == PASS <==> t == Some("ToRdfTest")
    ensures r == WARN <==> t == Some("ToRdfTestWithWarnings")
    ensures r == ERROR <==> t !in {Some("ToRdfTest"), Some("ToRdfTestWithWarnings")}
  {
    if t == Some("ToRdfTest") then PASS
    else if t == Some("ToRdfTestWithWarnings") then WARN
    else ERROR
  }

  /** `implicit?.split(/\s+/) ?? []`: no field gives no files, otherwise the whitespace-separated tokens. */
  function SplitImplicit(field: Option<string>): (files: seq<string>)
    ensures field.None? ==> files == []
    ensures field.Some? ==> |files| >= 1 && Concat(files) == RemoveWs(field.value)
    ensures field.Some? ==> Join(files, " ") == CollapseWs(field.value)
    ensures forall i :: 0 <= i < |files| ==> NoWs(files[i])
  {
    match field
    case None => []
    case Some(text) =>
      SplitWsKeepsText(text);
      SplitWsPiecesNoWs(text);
      SplitWsCollapses(text);
      SplitWs(text)
  }

  /**
   * The cut points are fixed: the only whitespace-free pieces that, joined by single spaces, give
   * the text with each whitespace run made one space, are the ones `SplitImplicit` returns.
   */
  lemma SplitImplicitDetermined(text: string, files: seq<string>)
    requires |files| >= 1 && forall i :: 0 <= i < |files| ==> NoWs(files[i])
    requires Join(files, " ") == CollapseWs(text)
    ensures files == SplitImplicit(Some(text))
  {
    var split := SplitImplicit(Some(text));
    JoinSpaceInjective(files, split);
  }

  const NoProvMarker := "noProv: true"

  /** `options?.includes("noProv: true")`: undefined without options, otherwise whether the marker occurs. */
  function NoProvenance(options: Option<string>): (r: Option<bool>)
    ensures r.None? <==> options.None?
    ensures r == Some(true) <==> options.Some? && Includes(options.value, NoProvMarker)
  {
    match options
    case None => None
    case Some(text) => Some(Includes(text, NoProvMarker))
  }

  function Lookup(info: map<string, string>, key: string): Option<string> {
    if key in info then Some(info[key]) else None
  }

  /** The record built for one manifest entry from its name and field dictionary. */
  function EntryToSpec(name: string, info: map<string, string>): (r: Spec)
    ensures r.name == name
    ensures r.action.Some? <==> "action" in info
    ensures r.action.Some? ==> r.action.value == info["action"]
    ensures r.result.Some? <==> "result" in info
    ensures r.result.Some? ==> r.result.value == info["result"]
    ensures r.implicit == [] <==> "implicit" !in info
    ensures r.specType == ERROR <==> "type" !in info || info["type"] !in {"ToRdfTest", "ToRdfTestWithWarnings"}
    ensures r.noProvenance.Some? <==> "options" in info
    ensures r.implicit == SplitImplicit(Lookup(info, "implicit"))
    ensures r.specType == ClassifyType(Lookup(info, "type"))
    ensures r.noProvenance == NoProvenance(Lookup(info, "options"))
  {
    Spec(name, Lookup(info, "action"), Lookup(info, "result"), SplitImplicit(Lookup(info, "implicit")),
         ClassifyType(Lookup(info, "type")), NoProvenance(Lookup(info, "options")))
  }

  /** Reading a field of a `dd` that holds no definition list, or of a missing `dd`, throws. */
  datatype CrawlError = MissingDefinitionList

  /** Every `dt` up to the last name has a `dd` holding a definition list. */
  predicate AllListed(names: seq<string>, infos: seq<Option<seq<Element>>>) {
    |names| <= |infos| && forall i :: 0 <= i < |names| ==> infos[i].Some?
  }

  /**
   * The records for the `dt` texts `names` and, per `dd`, the children of its definition list
   * (`None` when the `dd` holds none): one record per `dt`, in document order, record i
   * built from the trimmed i-th name and the dictionary of the i-th `dd`. A missing `dd` or
   * definition list throws.
   */
  function Crawl(names: seq<string>, infos: seq<Option<seq<Element>>>): (r: Result<seq<Spec>, CrawlError>)
    ensures r.Success? <==> AllListed(names, infos)
    ensures r.Success? ==> |r.value| == |names|
    ensures r.Success? ==> forall i :: 0 <= i < |names| ==>
              r.value[i].name == Trim(names[i]) && r.value[i] == EntryToSpec(Trim(names[i]), Dict(infos[i].value))
  {
    if AllListed(names, infos) then
      Success(seq(|names|, i requires 0 <= i < |names| && i < |infos| && infos[i].Some? =>
                             EntryToSpec(Trim(names[i]), Dict(infos[i].value))))
    else Failure(MissingDefinitionList)
  }

  /**
   * Every implicit file reference of a record built from a definition list is a non-empty
   * token without whitespace, because the dictionary only holds trimmed, non-empty values.
   */
  lemma EntryImplicitTokens(name: string, children: seq<Element>)
    ensures forall j :: 0 <= j < |EntryToSpec(name, Dict(children)).implicit| ==>
              EntryToSpec(name, Dict(children)).implicit[j] != [] && NoWs(EntryToSpec(name, Dict(children)).implicit[j])
  {
    var info := Dict(children);
    if "implicit" in info {
      DictClean(children, "implicit");
      SplitWsTokensNonEmpty(info["implicit"]);
    }
  }

  /** The same holds of every record `Crawl` returns. */
  lemma CrawledImplicitTokens(names: seq<string>, infos: seq<Option<seq<Element>>>)
    requires Crawl(names, infos).Success?
    ensures forall i, j :: 0 <= i < |names| && 0 <= j < |Crawl(names, infos).value[i].implicit| ==>
              Crawl(names, infos).value[i].implicit[j] != [] && NoWs(Crawl(names, infos).value[i].implicit[j])
  {
    var specs := Crawl(names, infos).value;
    forall i | 0 <= i < |names|
      ensures forall j :: 0 <= j < |specs[i].implicit| ==> specs[i].implicit[j] != [] && NoWs(specs[i].implicit[j])
    {
      EntryImplicitTokens(Trim(names[i]), infos[i].value);
    }
  }
}
