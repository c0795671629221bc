/**
 * The test runner: how a test specification is resolved into the files that play the roles of
 * tabular data, metadata and base IRI, how those files are loaded and converted, and how the
 * outcome of one run is judged against the type of the test.
 *
 * URL parsing is approximated on strings: the path of a URL is the URL without its query or
 * fragment, and the base name of a URL is its last path segment.
 */
module Index {
  import opened Wrappers
  import opened Strings
  import opened TestSpec
  import opened PrepareTestData

  // ---------------------------------------------------------------- string helpers

  /** `removeQueryOrFragment`: the URL up to, not including, its first `#` or `?`. */
  function RemoveQueryOrFragment(url: string): (r: string)
    ensures StartsWith(url, r)
    ensures '#' !in r && '?' !in r
    ensures |r| < |url| ==> url[|r|] == '#' || url[|r|] == '?'
  {
    var i := IndexOf(url, "#");
    var j := IndexOf(url, "?");
    IndexOfChar(url, '#');
    IndexOfChar(url, '?');
    var i' := if i == -1 then |url| else i;
    var j' := if j == -1 then |url| else j;
    url[..if i' <= j' then i' else j']
  }

  /** Stripping a query or fragment a second time changes nothing. */
  lemma RemoveQueryOrFragmentIdempotent(url: string)
    ensures RemoveQueryOrFragment(RemoveQueryOrFragment(url)) == RemoveQueryOrFragment(url)
  {
    var r := RemoveQueryOrFragment(url);
    IndexOfChar(r, '#');
    IndexOfChar(r, '?');
  }

  /** A URL without `#` and `?` is its own path. */
  lemma RemoveQueryOrFragmentOfPlain(url: string)
    requires '#' !in url && '?' !in url
    ensures RemoveQueryOrFragment(url) == url
  {
    IndexOfChar(url, '#');
    IndexOfChar(url, '?');
  }

  /** A query or fragment appended to a URL without `#` and `?` is cut off again. */
  lemma RemoveQueryOrFragmentOfSuffixed(url: string, rest: string)
    requires '#' !in url && '?' !in url
    requires rest != [] && (rest[0] == '#' || rest[0] == '?')
    ensures RemoveQueryOrFragment(url + rest) == url
  {
    var u, r := url + rest, RemoveQueryOrFragment(url + rest);
    assert r == u[..|url|] == url;
  }

  /** The remote prefix whose length `localURL` drops. */
  const TestsPrefix := "http://www.w3.org/2013/csvw/tests/"

  /** Where the local fixture tree lives, relative to the runner. */
  const TestDataDir := "../test-data/"

  /** `url.slice(n)`: the text after the first `n` characters, or nothing when the text is shorter. */
  function SliceFrom(url: string, n: nat): (r: string)
    ensures |url| <= n ==> r == []
    ensures n <= |url| ==> url == url[..n] + r
  {
    if |url| <= n then [] else url[n..]
  }

  /**
   * `localURL`, up to the resolution against the module's location: the fixture path for a
   * URL of the remote test suite.
   */
  function LocalURL(url: string): (r: string)
    ensures StartsWith(r, TestDataDir)
    ensures '#' !in r[|TestDataDir|..] && '?' !in r[|TestDataDir|..]
  {
    TestDataDir + RemoveQueryOrFragment(SliceFrom(url, |TestsPrefix|))
  }

  /** For a URL under the remote test suite, the fixture path is the relative path without query or fragment. */
  lemma LocalURLOfTestsUrl(rel: string)
    ensures LocalURL(TestsPrefix + rel) == TestDataDir + RemoveQueryOrFragment(rel)
  {
    assert SliceFrom(TestsPrefix + rel, |TestsPrefix|) == rel;
  }

  /** Only the length of the prefix matters: it is dropped without being checked. */
  lemma LocalURLIgnoresPrefix(a: string, b: string, rel: string)
    requires |a| == |b| == |TestsPrefix|
    ensures LocalURL(a + rel) == LocalURL(b + rel)
  {
    assert SliceFrom(a + rel, |TestsPrefix|) == rel;
    assert SliceFrom(b + rel, |TestsPrefix|) == rel;
  }

  /** A URL no longer than the prefix names the fixture directory itself. */
  lemma LocalURLOfShort(url: string)
    requires |url| <= |TestsPrefix|
    ensures LocalURL(url) == TestDataDir
  {
    RemoveQueryOrFragmentOfPlain([]);
  }

  /** The text with its trailing slashes removed. */
  function StripTrailingSlashes(s: string): (r: string)
    ensures StartsWith(s, r)
    ensures r == [] || r[|r| - 1] != '/'
    ensures forall k :: |r| <= k < |s| ==> s[k] == '/'
  {
    if s != [] && s[|s| - 1] == '/' then StripTrailingSlashes(s[..|s| - 1]) else s
  }

  /** The position of the last slash, or -1 when there is none. */
  function LastSlash(s: string): (i: int)
    ensures -1 <= i < |s|
    ensures i >= 0 ==> s[i] == '/'
    ensures forall k :: i < k < |s| ==> s[k] != '/'
  {
    if s == [] then -1
    else if s[|s| - 1] == '/' then |s| - 1
    else LastSlash(s[..|s| - 1])
  }

  /** The text after the last slash, or all of it when there is none. */
  function AfterLastSlash(s: string): (r: string)
    ensures |r| <= |s| && r == s[|s| - |r|..]
    ensures '/' !in r
    ensures |r| < |s| ==> s[|s| - |r| - 1] == '/'
  {
    var r := s[LastSlash(s) + 1..];
    assert forall k :: 0 <= k < |r| ==> r[k] == s[LastSlash(s) + 1 + k];
    r
  }

  /** `baseIRI`: the base name of the URL, as a POSIX `basename` computes it. */
  function BaseIRI(url: string): (r: string)
    ensures '/' !in r
  {
    AfterLastSlash(StripTrailingSlashes(url))
  }

  /** The base name of a URL ending in a non-empty segment is that segment. */
  lemma {:induction false} BaseIRILastSegment(dir: string, name: string)
    requires name != [] && '/' !in name
    ensures BaseIRI(dir + "/" + name) == name
    decreases |name|
  {
    var s := dir + "/" + name;
    assert s[|s| - 1] == name[|name| - 1];
    assert StripTrailingSlashes(s) == s;
    if |name| == 1 {
      assert s[..|s| - 1] == dir + "/";
      assert AfterLastSlash(dir + "/") == [];
      assert name == [name[0]];
    } else {
      var init := name[..|name| - 1];
      assert s[..|s| - 1] == dir + "/" + init;
      BaseIRILastSegment(dir, init);
      assert StripTrailingSlashes(dir + "/" + init) == dir + "/" + init by {
        assert init[|init| - 1] != '/';
      }
      assert init + [name[|name| - 1]] == name;
    }
  }

  /** A trailing slash does not change the base name. */
  lemma BaseIRITrailingSlash(url: string)
    ensures BaseIRI(url + "/") == BaseIRI(url)
  {
    assert (url + "/")[..|url|] == url;
  }

  // ---------------------------------------------------------------- file roles

  /** `new URL(u).pathname.endsWith(suffix)`, with the path approximated by stripping query and fragment. */
  predicate PathEndsWith(u: string, suffix: string) {
    EndsWith(RemoveQueryOrFragment(u), suffix)
  }

  /** `xs.filter(x => new URL(x).pathname.endsWith(suffix))`. */
  function FilterByPath(xs: seq<string>, suffix: string): (r: seq<string>)
    ensures |r| <= |xs|
    ensures forall x :: x in r <==> x in xs && PathEndsWith(x, suffix)
  {
    if xs == [] then []
    else (if PathEndsWith(xs[0], suffix) then [xs[0]] else []) + FilterByPath(xs[1..], suffix)
  }

  /** Filtering distributes over concatenation. */
  lemma {:induction false} FilterByPathAppend(xs: seq<string>, ys: seq<string>, suffix: string)
    ensures FilterByPath(xs + ys, suffix) == FilterByPath(xs, suffix) + FilterByPath(ys, suffix)
  {
    if xs == [] {
      assert xs + ys == ys;
    } else {
      assert (xs + ys)[1..] == xs[1..] + ys;
      FilterByPathAppend(xs[1..], ys, suffix);
    }
  }

  /** A path that ends in `.csv` does not end in `.json`. */
  lemma CsvIsNotJson(u: string)
    requires PathEndsWith(u, ".csv")
    ensures !PathEndsWith(u, ".json")
  {
    var p := RemoveQueryOrFragment(u);
    assert p[|p| - 1] == ".csv"[3];
    if |".json"| <= |p| {
      assert p[|p| - |".json"|..][4] == p[|p| - 1];
    }
  }

  /** The metadata file a tabular action implies: its first `.csv` replaced by `-metadata.json`. */
  function DefaultMetadata(action: string): string {
    ReplaceFirst(action, ".csv", "-metadata.json")
  }

  /**
   * Only the first `.csv` is replaced: for a stem in which `.csv` does not occur, the stem
   * keeps whatever follows that first `.csv`.
   */
  lemma DefaultMetadataOfStem(stem: string, tail: string)
    requires !Includes(stem, ".csv")
    ensures DefaultMetadata(stem + ".csv" + tail) == stem + "-metadata.json" + tail
  {
    var s, p, q := stem + ".csv" + tail, ".csv", "-metadata.json";
    FirstCsvAfterStem(stem, tail);
    var k := IndexOf(s, p);
    ReplaceFirstAt(s, p, q);
    assert s[..k] == stem && s[k + |p|..] == tail;
    MetadataSuffixPlain();
  }

  /** The default metadata suffix holds no `$`, so `replace` inserts it as it stands. */
  lemma MetadataSuffixPlain()
    ensures '$' !in "-metadata.json"
  {
    var q := "-metadata.json";
    forall i | 0 <= i < |q| ensures q[i] != '$' {
    }
  }

  /** The first `.csv` of `stem + ".csv" + tail` starts right after a stem in which `.csv` does not occur. */
  lemma FirstCsvAfterStem(stem: string, tail: string)
    requires !Includes(stem, ".csv")
    ensures IndexOf(stem + ".csv" + tail, ".csv") == |stem|
  {
    var s, p := stem + ".csv" + tail, ".csv";
    assert s[|stem|..|stem| + |p|] == p;
    assert OccursAt(s, |stem|, p);
    forall k | 0 <= k < |stem| ensures !OccursAt(s, k, p) {
      if k + |p| <= |stem| {
        assert s[k..k + |p|] == stem[k..k + |p|];
        assert !OccursAt(stem, k, p);
      } else {
        assert s[k..k + |p|][|stem| - k] == s[|stem|] == '.' != p[|stem| - k];
      }
    }
    IndexOfSpec(s, p);
  }

  /** Why a test specification cannot be resolved. */
  datatype ResolveError =
    | MissingAction  // `new URL(undefined)` throws
    | MultipleCsv    // "Multiple CSV files not supported"

  /** The URLs `runTest` loads the tabular data and the metadata from, and the base IRI it passes on. */
  datatype Sources = Sources(csvSource: Option<string>, metadataSource: Option<string>, base: Option<string>)

  /** The metadata of a tabular action: the only implicit JSON file, else the default name if it is listed. */
  function CsvMetadata(action: string, jsons: seq<string>): (r: Option<string>)
    ensures r.Some? ==> r.value in jsons
    ensures r.None? <==> |jsons| != 1 && DefaultMetadata(action) !in jsons
  {
    if |jsons| == 1 then Some(jsons[0])
    else if DefaultMetadata(action) in jsons then Some(DefaultMetadata(action))
    else None
  }

  /** The file-role branch of `runTest`, over the `action` and `implicit` fields of a specification. */
  function Resolve(action: Option<string>, implicit: seq<string>): (r: Result<Sources, ResolveError>)
    ensures r == Failure(MissingAction) <==> action.None?
    ensures r == Failure(MultipleCsv) <==>
              action.Some? && !PathEndsWith(action.value, ".csv") && |FilterByPath(implicit, ".csv")| >= 2
    ensures r.Success? ==> (r.value.base.Some? <==> r.value.csvSource.Some?)
    ensures r.Success? && r.value.csvSource.Some? ==> r.value.base == Some(BaseIRI(r.value.csvSource.value))
    ensures r.Success? ==> r.value.csvSource == action || r.value.metadataSource == action
  {
    var csvs := FilterByPath(implicit, ".csv");
    match action
    case None => Failure(MissingAction)
    case Some(a) =>
      if PathEndsWith(a, ".csv") then
        Success(Sources(Some(a), CsvMetadata(a, FilterByPath(implicit, ".json")), Some(BaseIRI(a))))
      else if |csvs| > 1 then Failure(MultipleCsv)
      else if |csvs| == 1 then Success(Sources(Some(csvs[0]), Some(a), Some(BaseIRI(csvs[0]))))
      else Success(Sources(None, Some(a), None))
  }

  /**
   * A tabular action is the tabular source and names the base; the metadata, if any, is an
   * implicit JSON file: the only one, else the default name when it is listed.
   */
  lemma ResolveTabularAction(action: string, implicit: seq<string>)
    requires PathEndsWith(action, ".csv")
    ensures Resolve(Some(action), implicit).Success?
    ensures Resolve(Some(action), implicit).value.csvSource == Some(action)
    ensures Resolve(Some(action), implicit).value.base == Some(BaseIRI(action))
    ensures Resolve(Some(action), implicit).value.metadataSource.Some? ==>
              Resolve(Some(action), implicit).value.metadataSource.value in implicit
              && PathEndsWith(Resolve(Some(action), implicit).value.metadataSource.value, ".json")
    ensures |FilterByPath(implicit, ".json")| == 1 ==>
              Resolve(Some(action), implicit).value.metadataSource == Some(FilterByPath(implicit, ".json")[0])
    ensures |FilterByPath(implicit, ".json")| != 1 && DefaultMetadata(action) in implicit
              && PathEndsWith(DefaultMetadata(action), ".json") ==>
              Resolve(Some(action), implicit).value.metadataSource == Some(DefaultMetadata(action))
    ensures |FilterByPath(implicit, ".json")| != 1 && DefaultMetadata(action) !in implicit ==>
              Resolve(Some(action), implicit).value.metadataSource.None?
  {
  }

  /** With a tabular action, adding implicit CSV files changes nothing: they are ignored. */
  lemma TabularActionIgnoresImplicitCsv(action: string, implicit: seq<string>, extra: seq<string>)
    requires PathEndsWith(action, ".csv")
    requires forall x :: x in extra ==> PathEndsWith(x, ".csv")
    ensures Resolve(Some(action), implicit + extra) == Resolve(Some(action), implicit)
  {
    FilterJsonSkipsCsv(implicit, extra);
    var meta := CsvMetadata(action, FilterByPath(implicit, ".json"));
    assert Resolve(Some(action), implicit + extra) == Success(Sources(Some(action), meta, Some(BaseIRI(action))));
  }

  /** With a tabular action, the resolution depends on the implicit list only through its JSON files. */
  lemma TabularActionDependsOnJsonOnly(action: string, implicit: seq<string>, other: seq<string>)
    requires PathEndsWith(action, ".csv")
    requires FilterByPath(implicit, ".json") == FilterByPath(other, ".json")
    ensures Resolve(Some(action), implicit) == Resolve(Some(action), other)
  {
  }

  /** Appending CSV files leaves the JSON files of a list as they were. */
  lemma FilterJsonSkipsCsv(xs: seq<string>, extra: seq<string>)
    requires forall x :: x in extra ==> PathEndsWith(x, ".csv")
    ensures FilterByPath(xs + extra, ".json") == FilterByPath(xs, ".json")
  {
    FilterByPathAppend(xs, extra, ".json");
    forall x | x in extra ensures !PathEndsWith(x, ".json") {
      CsvIsNotJson(x);
    }
    FilterByPathNone(extra, ".json");
  }

  /** A list with no matching path filters to nothing. */
  lemma {:induction false} FilterByPathNone(xs: seq<string>, suffix: string)
    requires forall x :: x in xs ==> !PathEndsWith(x, suffix)
    ensures FilterByPath(xs, suffix) == []
  {
    if xs != [] {
      assert xs[0] in xs;
      FilterByPathNone(xs[1..], suffix);
    }
  }

  /**
   * Any other action is the metadata. With two or more implicit CSV files resolution fails;
   * with exactly one, that file is the tabular source and names the base; with none, neither is set.
   */
  lemma ResolveMetadataAction(action: string, implicit: seq<string>)
    requires !PathEndsWith(action, ".csv")
    ensures Resolve(Some(action), implicit).Failure? <==> |FilterByPath(implicit, ".csv")| >= 2
    ensures Resolve(Some(action), implicit).Success? ==> Resolve(Some(action), implicit).value.metadataSource == Some(action)
    ensures |FilterByPath(implicit, ".csv")| == 1 ==>
              FilterByPath(implicit, ".csv")[0] in implicit
              && Resolve(Some(action), implicit) == Success(Sources(Some(FilterByPath(implicit, ".csv")[0]), Some(action),
                                                                      Some(BaseIRI(FilterByPath(implicit, ".csv")[0]))))
    ensures |FilterByPath(implicit, ".csv")| == 0 ==> Resolve(Some(action), implicit) == Success(Sources(None, Some(action), None))
  {
  }

  // ---------------------------------------------------------------- running one test

  /**
   * The foreign operations a run depends on, as opaque functions over graphs of type `G`;
   * `None` stands for a rejected promise.
   */
  datatype Env<!G> = Env(
    fetchDataset: string -> Option<G>,                               // rdf.io.dataset.fromURL
    readFile: string -> Option<string>,                              // fs.readFile
    convert: (Option<string>, Option<G>, Option<string>) -> Option<G>, // the CSVW parser: tabular text, metadata, base
    serialise: G -> string,                                          // dataset.toString()
    parseTurtle: string -> Option<G>)                                // rdf.io.dataset.fromText("text/turtle", _)

  /** `loadLD`: the dataset at the `file:` URL of the fixture. */
  function LoadLD<G>(env: Env<G>, url: string): Option<G> {
    env.fetchDataset("file:/" + LocalURL(url))
  }

  /** `loadCSV`: the text of the fixture. */
  function LoadCSV<G>(env: Env<G>, url: string): Option<string> {
    env.readFile(LocalURL(url))
  }

  /** A query or fragment after a URL of the remote test suite does not change which fixture is loaded. */
  lemma FixtureLoadsIgnoreQuery<G>(env: Env<G>, rel: string, rest: string)
    requires '#' !in rel && '?' !in rel
    requires rest != [] && (rest[0] == '#' || rest[0] == '?')
    ensures LoadLD(env, TestsPrefix + rel + rest) == LoadLD(env, TestsPrefix + rel)
    ensures LoadCSV(env, TestsPrefix + rel + rest) == LoadCSV(env, TestsPrefix + rel)
  {
    assert TestsPrefix + rel + rest == TestsPrefix + (rel + rest);
    LocalURLOfTestsUrl(rel + rest);
    LocalURLOfTestsUrl(rel);
    RemoveQueryOrFragmentOfPlain(rel);
    RemoveQueryOrFragmentOfSuffixed(rel, rest);
  }

  /** Why a run rejects. */
  datatype RunError =
    | LoadFailed(url: string)      // a fixture could not be read or parsed
    | Unresolved(reason: ResolveError)
    | ConversionFailed             // the parser rejected
    | ReparseFailed                // the vocabulary-rewritten output did not parse back
    | NoExpectedResult             // `toCanonical` of a missing expected result throws
    | Mismatch                     // `assert.equal` on the canonical forms throws

  /** `spec.result && await loadLD(spec.result)`: nothing for an absent or empty result, else the loaded graph. */
  function Expected<G>(result: Option<string>, env: Env<G>): (r: Result<Option<G>, RunError>)
    ensures r.Failure? ==> result.Some? && r.error == LoadFailed(result.value)
    ensures r == Success(None) <==> result.None? || result == Some([])
    ensures result.Some? && result.value != [] ==>
              (r.Failure? <==> LoadLD(env, result.value).None?) &&
              (r.Success? ==> r.value == LoadLD(env, result.value))
  {
    match result
    case None => Success(None)
    case Some(u) =>
      if u == [] then Success(None)
      else match LoadLD(env, u)
        case None => Failure(LoadFailed(u))
        case Some(g) => Success(Some(g))
  }

  /** Loading an optional tabular source; no source gives no text. */
  function LoadTabular<G>(env: Env<G>, src: Option<string>): (r: Result<Option<string>, RunError>)
    ensures r.Failure? <==> src.Some? && LoadCSV(env, src.value).None?
    ensures r.Failure? ==> r.error == LoadFailed(src.value)
    ensures r.Success? ==> r.value == if src.None? then None else LoadCSV(env, src.value)
  {
    match src
    case None => Success(None)
    case Some(u) => match LoadCSV(env, u) case None => Failure(LoadFailed(u)) case Some(t) => Success(Some(t))
  }

  /** Loading an optional metadata source; no source gives no metadata. */
  function LoadMetadata<G>(env: Env<G>, src: Option<string>): (r: Result<Option<G>, RunError>)
    ensures r.Failure? <==> src.Some? && LoadLD(env, src.value).None?
    ensures r.Failure? ==> r.error == LoadFailed(src.value)
    ensures r.Success? ==> r.value == if src.None? then None else LoadLD(env, src.value)
  {
    match src
    case None => Success(None)
    case Some(u) => match LoadLD(env, u) case None => Failure(LoadFailed(u)) case Some(g) => Success(Some(g))
  }

  /**
   * The loads of the resolved sources, in the order `runTest` awaits them: the tabular action
   * before its metadata, the metadata action before its tabular file. The first failure rejects.
   */
  function LoadInputs<G>(env: Env<G>, src: Sources, tabularFirst: bool): (r: Result<(Option<string>, Option<G>), RunError>)
    ensures r.Success? <==> LoadTabular(env, src.csvSource).Success? && LoadMetadata(env, src.metadataSource).Success?
    ensures r.Success? ==> r.value == (LoadTabular(env, src.csvSource).value, LoadMetadata(env, src.metadataSource).value)
    ensures r.Failure? && tabularFirst ==>
              r.error == if LoadTabular(env, src.csvSource).Failure? then LoadTabular(env, src.csvSource).error
                         else LoadMetadata(env, src.metadataSource).error
    ensures r.Failure? && !tabularFirst ==>
              r.error == if LoadMetadata(env, src.metadataSource).Failure? then LoadMetadata(env, src.metadataSource).error
                         else LoadTabular(env, src.csvSource).error
  {
    var csv := LoadTabular(env, src.csvSource);
    var meta := LoadMetadata(env, src.metadataSource);
    if tabularFirst then
      if csv.Failure? then Failure(csv.error)
      else if meta.Failure? then Failure(meta.error)
      else Success((csv.value, meta.value))
    else
      if meta.Failure? then Failure(meta.error)
      else if csv.Failure? then Failure(csv.error)
      else Success((csv.value, meta.value))
  }

  /** `replaceVocab`: serialise, rewrite the vocabulary namespace, parse back. */
  function ReplaceVocab<G>(env: Env<G>, g: G): (r: Option<G>)
    ensures r == env.parseTurtle(ReplaceAll(env.serialise(g), VocabOriginal, VocabLocalhost))
    ensures exists text :: ParsedWithoutNamespace(env, text, r)
  {
    var text := VocabRewrite(env.serialise(g));
    assert ParsedWithoutNamespace(env, text, env.parseTurtle(text));
    env.parseTurtle(text)
  }

  /** `r` is what the Turtle parser makes of `text`, and `text` no longer mentions the vocabulary namespace. */
  ghost predicate ParsedWithoutNamespace<G>(env: Env<G>, text: string, r: Option<G>) {
    !Includes(text, VocabOriginal) && r == env.parseTurtle(text)
  }

  /** The converted dataset of a run over the `action` and `implicit` fields, or why producing it rejects. */
  function Actual<G>(action: Option<string>, implicit: seq<string>, env: Env<G>): (r: Result<G, RunError>)
    ensures r.Failure? && r.error.Unresolved? <==> Resolve(action, implicit).Failure?
    ensures r.Failure? && r.error.Unresolved? ==> r.error.reason == Resolve(action, implicit).error
    ensures r.Success? ==>
              Resolve(action, implicit).Success? &&
              LoadInputs(env, Resolve(action, implicit).value, PathEndsWith(action.value, ".csv")).Success?
    ensures Resolve(action, implicit).Success? ==>
              r == Produce(env, Resolve(action, implicit).value, PathEndsWith(action.value, ".csv"))
  {
    match Resolve(action, implicit)
    case Failure(e) => Failure(Unresolved(e))
    case Success(src) => Produce(env, src, PathEndsWith(action.value, ".csv"))
  }

  /** The CSVW parser run on the loaded tabular text and metadata, with the resolved base IRI. */
  function Convert<G>(env: Env<G>, src: Sources, inputs: (Option<string>, Option<G>)): Option<G> {
    env.convert(inputs.0, inputs.1, src.base)
  }

  /** Loading the resolved inputs, converting them and rewriting the vocabulary of the output. */
  function Produce<G>(env: Env<G>, src: Sources, tabularFirst: bool): (r: Result<G, RunError>)
    ensures r.Failure? ==> !r.error.Unresolved?
    ensures r.Success? <==>
              LoadInputs(env, src, tabularFirst).Success? &&
              Convert(env, src, LoadInputs(env, src, tabularFirst).value).Some? &&
              ReplaceVocab(env, Convert(env, src, LoadInputs(env, src, tabularFirst).value).value).Some?
    ensures r.Success? ==>
              r.value == ReplaceVocab(env, Convert(env, src, LoadInputs(env, src, tabularFirst).value).value).value
    ensures LoadInputs(env, src, tabularFirst).Failure? ==> r == Failure(LoadInputs(env, src, tabularFirst).error)
    ensures (LoadInputs(env, src, tabularFirst).Success? &&
             Convert(env, src, LoadInputs(env, src, tabularFirst).value).None?) ==>
              r == Failure(ConversionFailed)
  {
    match LoadInputs(env, src, tabularFirst)
    case Failure(e) => Failure(e)
    case Success(inputs) =>
      match Convert(env, src, inputs)
      case None => Failure(ConversionFailed)
      case Some(g) =>
        match ReplaceVocab(env, g)
        case None => Failure(ReparseFailed)
        case Some(actual) => Success(actual)
  }

  /**
   * `runTest`: the expected result is loaded first, then the inputs are resolved, loaded and
   * converted; for a test that is not of type ERROR the canonical forms must then agree.
   * `Success` means the returned promise resolves.
   */
  function RunTest<G>(spec: Spec, env: Env<G>, canonical: G -> string): (r: Result<G, RunError>)
    ensures r.Success? ==> Actual(spec.action, spec.implicit, env) == r
    ensures Expected(spec.result, env).Failure? ==> r == Failure(Expected(spec.result, env).error)
  {
    Compare(spec.specType, Expected(spec.result, env), Actual(spec.action, spec.implicit, env), canonical)
  }

  /** The last step of `runTest`, once the expected result and the output are known. */
  function Compare<G>(specType: SpecType, expected: Result<Option<G>, RunError>, actual: Result<G, RunError>,
                      canonical: G -> string): (r: Result<G, RunError>)
    ensures r.Success? <==>
              expected.Success? && actual.Success? &&
              (specType == ERROR || (expected.value.Some? && canonical(actual.value) == canonical(expected.value.value)))
    ensures r.Success? ==> r == actual
    ensures expected.Failure? ==> r == Failure(expected.error)
    ensures expected.Success? && actual.Failure? ==> r == actual
  {
    match expected
    case Failure(e) => Failure(e)
    case Success(exp) =>
      match actual
      case Failure(e) => Failure(e)
      case Success(out) =>
        if specType == ERROR then Success(out)
        else if exp.None? then Failure(NoExpectedResult)
        else if canonical(out) != canonical(exp.value) then Failure(Mismatch)
        else Success(out)
  }

  /** The verdict of the test registered for `spec`: an ERROR test must reject, any other must resolve. */
  predicate TestPasses<G>(spec: Spec, env: Env<G>, canonical: G -> string) {
    if spec.specType == ERROR then RunTest(spec, env, canonical).Failure? else RunTest(spec, env, canonical).Success?
  }

  /** An ERROR test passes exactly when loading the expected result or producing the output rejects. */
  lemma ErrorVerdict<G>(spec: Spec, env: Env<G>, canonical: G -> string)
    requires spec.specType == ERROR
    ensures TestPasses(spec, env, canonical) <==> Expected(spec.result, env).Failure? || Actual(spec.action, spec.implicit, env).Failure?
  {
  }

  /** An ERROR test never compares: its verdict does not depend on canonicalisation. */
  lemma ErrorSkipsComparison<G>(spec: Spec, env: Env<G>, canonical: G -> string, other: G -> string)
    requires spec.specType == ERROR
    ensures TestPasses(spec, env, other) == TestPasses(spec, env, canonical)
  {
  }

  /**
   * A PASS or WARN test passes exactly when nothing rejects, an expected result is present and
   * the canonical forms of the output and the expected result are equal.
   */
  lemma ResolvingVerdict<G>(spec: Spec, env: Env<G>, canonical: G -> string)
    requires spec.specType != ERROR
    ensures TestPasses(spec, env, canonical) <==>
              && Expected(spec.result, env).Success? && Expected(spec.result, env).value.Some?
              && Actual(spec.action, spec.implicit, env).Success?
              && canonical(Actual(spec.action, spec.implicit, env).value) == canonical(Expected(spec.result, env).value.value)
  {
  }

  /** PASS and WARN tests are judged alike. */
  lemma PassAndWarnAlike<G>(spec: Spec, env: Env<G>, canonical: G -> string)
    ensures TestPasses(spec.(specType := PASS), env, canonical) == TestPasses(spec.(specType := WARN), env, canonical)
  {
  }

  /** The same entry cannot pass both as an ERROR test and as a PASS test. */
  lemma VerdictsExclusive<G>(spec: Spec, env: Env<G>, canonical: G -> string)
    ensures !(TestPasses(spec.(specType := ERROR), env, canonical) && TestPasses(spec.(specType := PASS), env, canonical))
  {
  }

  /** The `noProvenance` flag has no effect on a run. */
  lemma NoProvenanceInert<G>(spec: Spec, env: Env<G>, canonical: G -> string, flag: Option<bool>)
    ensures RunTest(spec.(noProvenance := flag), env, canonical) == RunTest(spec, env, canonical)
  {
    var other := spec.(noProvenance := flag);
    assert other.result == spec.result && other.action == spec.action && other.implicit == spec.implicit;
    assert other.specType == spec.specType;
  }

  /**
   * A specification that cannot be resolved rejects right after the expected result is loaded:
   * no input is read and the parser is never called.
   */
  lemma UnresolvedRejects<G>(spec: Spec, env: Env<G>, canonical: G -> string)
    requires Resolve(spec.action, spec.implicit).Failure?
    ensures RunTest(spec, env, canonical).Failure?
    ensures RunTest(spec, env, canonical).error ==
              if Expected(spec.result, env).Failure? then Expected(spec.result, env).error
              else Unresolved(Resolve(spec.action, spec.implicit).error)
    ensures spec.specType == ERROR ==> TestPasses(spec, env, canonical)
  {
  }
}
