# CSVW-to-RDF conformance harness, modelled in Dafny

This project models the decision logic of a test harness that runs the W3C CSVW "to RDF" test
suite against a CSVW parser:

- **crawling the manifest**: every `dt` of the manifest's test list, with the definition list
  inside the matching `dd`, becomes a test specification. `dlToDict` reads a definition list
  into a field dictionary. The `type` field is classified as PASS, WARN or ERROR. `implicit` is
  split on whitespace, and `options` is searched for `noProv: true`.
- **materialising fixtures**: the text of every fixture is rewritten so that the remote test
  base points at the local copy and the CSVW vocabulary namespace points at a local mirror. The
  vocabulary document itself gets only the second rewrite.
- **running a test**: `runTest` resolves which URL supplies the tabular data, which supplies the
  metadata and what the base IRI is, or fails with "Multiple CSV files not supported". It then
  loads, converts and compares canonical forms. The registered test passes when an ERROR test
  rejects, or when a PASS or WARN test resolves.

Modules, one per source file, plus helpers:

- `Wrappers` (`wrappers.dfy`): `Option` and `Result`.
- `Strings` (`strings.dfy`): the JavaScript string built-ins the harness relies on. These are
  `trim`, `toLowerCase`, `indexOf`, `includes`, `endsWith`, `replace` and `replaceAll` with a
  string pattern (including the `$` patterns of the replacement), and `split(/\s+/)`. The file
  also holds their properties. `SplitOn`/`Join` (cut at a separator, glue with one) and
  `CollapseWs` (each whitespace run made one space) are reference definitions that only lemmas use.
- `TestSpec` (`spec.dfy`): the `Spec` record and `SpecType`.
- `Utils` (`utils.dfy`): `dlToDict`. It is a loop that updates the dictionary one `dt` at a
  time, proved against the function `Dict`.
- `CrawlTests` (`crawl_tests.dfy`): the record built for each manifest entry.
- `PrepareTestData` (`prepare_test_data.dfy`): the fixture and vocabulary rewrites.
- `Index` (`index.dfy`): the runner:
  - `removeQueryOrFragment`, `localURL` and `baseIRI`;
  - the file-role resolver;
  - the loads, conversion and comparison of `runTest`, over opaque foreign operations;
  - the verdict of a registered test.

Foreign operations are parameters. In `Env<G>`, fetching a dataset, reading a file, the CSVW
parser, serialising and parsing Turtle are opaque functions over an abstract graph type `G`, and
`None` stands for a rejected promise. The canonicaliser is a separate parameter of `RunTest`.

## Model

| member | source | states |
|---|---|---|
| Strings.Trim | src/utils.ts:13-14 | the result has no leading or trailing whitespace |
| Strings.TrimRemovesOnlyEdges | src/utils.ts:13-14 | trimming removes only a whitespace prefix and a whitespace suffix |
| Strings.TrimNoEdge | src/utils.ts:13-14 | a text without edge whitespace is its own trim; with `Trim`'s contract, trimming twice equals trimming once |
| Strings.ToLower | src/utils.ts:13 | same length, and each character is the lower-case form of the one at the same position |
| Strings.ToLowerFacts | src/utils.ts:13 | lower-casing gives lower-case text, is idempotent, keeps the whitespace positions, and keeps trimmed text trimmed |
| Utils.DlToDict | src/utils.ts:10-20 | the loop over the `dt`s ends with exactly the dictionary `Dict` describes |
| Utils.Dict | src/utils.ts:10-20 | the specification of `dlToDict`: the entries of the list's `dt`s stored in order; its properties are the `Dict…` lemmas |
| Utils.DictKeys | src/utils.ts:12-17 | a key is in the dictionary iff some `dt` has that trimmed, lower-cased text and is followed by an element with non-empty trimmed text |
| Utils.DictLastWins | src/utils.ts:12-17 | the stored value comes from the last `dt` giving that key; no later `dt` gives the key |
| Utils.DictClean | src/utils.ts:13-16 | every key is trimmed and lower-case; every value is non-empty and trimmed |
| Utils.CollectKeys | src/utils.ts:15-17 | storing entries one after another gives exactly the keys of the stored entries |
| Utils.CollectLastWins | src/utils.ts:15-17 | each stored value is that of the last entry with the key |
| CrawlTests.ClassifyType | src/crawl-tests.ts:21-26 | `ToRdfTest` iff PASS, `ToRdfTestWithWarnings` iff WARN, anything else (absent included) iff ERROR |
| CrawlTests.SplitImplicit | src/crawl-tests.ts:20 | an absent field gives no files; otherwise at least one piece, no piece has whitespace, the pieces put together are the text without its whitespace, and the pieces joined by single spaces are the text with every whitespace run made one space |
| CrawlTests.SplitImplicitDetermined | src/crawl-tests.ts:20 | the cut points are fixed: any whitespace-free pieces whose single-space join is the collapsed text are exactly the split |
| Strings.SplitWs | src/crawl-tests.ts:20 | `split(/\s+/)`: always at least one piece |
| Strings.CollapseWs | src/crawl-tests.ts:20 | reference definition: the text with every maximal whitespace run replaced by one space |
| Strings.SplitWsCollapses | src/crawl-tests.ts:20 | the pieces of the whitespace split, joined by single spaces, are the collapsed text, so the cuts fall exactly at the whitespace runs |
| Strings.JoinSpaceInjective | src/crawl-tests.ts:20 | two non-empty lists of whitespace-free pieces with the same single-space join are equal |
| Strings.SplitWsKeepsText | src/crawl-tests.ts:20 | splitting on whitespace runs loses exactly the whitespace |
| Strings.SplitWsTokensNonEmpty | src/crawl-tests.ts:20 | a non-empty text without edge whitespace splits into non-empty tokens |
| Strings.Includes | src/crawl-tests.ts:27 | definition of `includes`: the pattern occurs at some position |
| CrawlTests.NoProvenance | src/crawl-tests.ts:27 | absent iff `options` is absent; true iff `options` contains `noProv: true` |
| CrawlTests.Crawl | src/crawl-tests.ts:13-29 | succeeds iff every name has a `dd` with a definition list; one record per name, in order, record i built from the trimmed i-th name and the i-th dictionary |
| CrawlTests.EntryToSpec | src/crawl-tests.ts:16-28 | the name is kept; `action` and `result` are copied from the dictionary, absent when absent; the implicit files are the whitespace split of `implicit` (none iff it is missing); the type is the classification of `type`; `noProvenance` is the marker test on `options`, absent iff `options` is |
| CrawlTests.EntryImplicitTokens | src/crawl-tests.ts:14-20 | every implicit file of a record is a non-empty token without whitespace |
| CrawlTests.CrawledImplicitTokens | src/crawl-tests.ts:13-20 | the same holds of every record the crawl returns |
| Strings.EndsWith | src/index.ts:52-58 | definition of `endsWith`: the text ends with the suffix |
| PrepareTestData.TestDir | src/prepare-test-data.ts:5 | the module directory, character by character, with each backslash made a slash and nothing else changed, followed by `/../test-data`; no backslash is left |
| Strings.ReplaceCharRemoves | src/prepare-test-data.ts:5 | replacing every backslash by a slash leaves none |
| Strings.ReplaceCharPointwise | src/prepare-test-data.ts:5 | replacing one character keeps the length and changes exactly the positions holding it |
| PrepareTestData.TestsBaseRewrite | src/prepare-test-data.ts:27 | with a test directory holding no `$`, every occurrence of the tests base is replaced by the local URL as it stands |
| PrepareTestData.TestsBaseRewriteEvery | src/prepare-test-data.ts:27 | with a test directory holding no `$`, the rewrite cuts the text at every occurrence of the tests base and joins the pieces with the local URL; the pieces rejoined with the base give back the text, and no piece holds the base |
| PrepareTestData.TestsBaseRewriteLeavesNone | src/prepare-test-data.ts:27 | when the local URL has no `$` and no tests base can begin inside it, no occurrence of the tests base is left, not even one formed across a replacement, both after the first rewrite and in the content finally written |
| PrepareTestData.TestsBaseRewriteMatchedPattern | src/prepare-test-data.ts:27 | a `$&` in the test directory puts the matched tests base back into the local URL |
| Strings.Expand | src/prepare-test-data.ts:27-28 | the `$$`, `` $& ``, `` $` `` and `$'` patterns of a replacement string; a replacement without `$` is inserted as it stands |
| Strings.ExpandMatched | src/prepare-test-data.ts:27 | a `$&` between two `$`-free texts becomes the matched text |
| Strings.ExpandPlainPrefix | src/prepare-test-data.ts:27 | a template prefix without `$` is copied as it stands, whatever follows it |
| Strings.ReplaceAll | src/prepare-test-data.ts:27-28 | reference definition: every non-overlapping occurrence, left to right, replaced by the replacement taken literally |
| Strings.ReplaceAllExpanded | src/prepare-test-data.ts:27-28 | `replaceAll` with a string pattern: the same as the literal replacement whenever the replacement holds no `$` |
| Strings.ReplaceAllExpandedNoMatch | src/prepare-test-data.ts:27 | text without the pattern is left unchanged, whatever the replacement |
| Strings.ReplaceAllExpandedWhole | src/prepare-test-data.ts:27 | the pattern alone becomes the expansion of the replacement, with nothing before or after the match |
| Strings.ReplaceAllIsSplitJoin | src/prepare-test-data.ts:27-28 | the literal replacement equals splitting on the pattern and joining with the replacement |
| Strings.SplitPiecesFree | src/prepare-test-data.ts:27-28 | no piece of a split holds the separator |
| Strings.SplitJoin | src/prepare-test-data.ts:27-28 | splitting on a separator and joining with it gives back the text |
| PrepareTestData.RewriteFixture | src/prepare-test-data.ts:26-28 | the content written for a fixture holds no occurrence of the vocabulary namespace; `PrepareTestData.TestsBaseRewriteLeavesNone` adds that it holds no tests base either |
| PrepareTestData.VocabRewrite | src/prepare-test-data.ts:9-40 | the mirror address has no `$`, so it is inserted as it stands; after the rewrite no occurrence of the namespace is left, including one formed across a replacement |
| PrepareTestData.MirrorAddressPlain | src/prepare-test-data.ts:10 | the mirror address holds no `$` |
| PrepareTestData.MirrorAddressBlocksNamespace | src/prepare-test-data.ts:9-10 | the mirror address starts with a character the namespace holds only at its head, and the namespace cannot begin inside it |
| Strings.ReplaceAllLeavesNone | src/prepare-test-data.ts:28 | under those two conditions on the replacement, `replaceAll` leaves no occurrence of the pattern |
| Strings.ReplaceAllHeads | src/prepare-test-data.ts:28 | when the replacement's head occurs in a text `w` only at its head, replacing cannot make text start with a proper suffix of `w` |
| Strings.ReplaceAllKeepsAbsent | src/prepare-test-data.ts:26-28 | replacing cannot create an absent text `w` when `w` cannot begin inside the replacement and the replacement's head occurs in `w` only at its head |
| PrepareTestData.VocabRewriteKeepsNoTestsBase | src/prepare-test-data.ts:26-28 | the vocabulary rewrite of a text without the tests base leaves it without the tests base |
| PrepareTestData.MirrorAddressBlocksTestsBase | src/prepare-test-data.ts:10-27 | the mirror address starts with a character the tests base holds only at its head, and the tests base cannot begin inside it |
| PrepareTestData.VocabRewriteIdempotent | src/prepare-test-data.ts:28 | rewriting the vocabulary twice equals rewriting it once |
| Strings.ReplaceAllNoMatch | src/prepare-test-data.ts:26-28 | text without the pattern is left unchanged |
| PrepareTestData.RewriteFixtureUnchanged | src/prepare-test-data.ts:26-28 | a fixture with neither the tests base nor the namespace is written unchanged |
| PrepareTestData.RewriteVocabDocument | src/prepare-test-data.ts:36-41 | the vocabulary document is written without any occurrence of the namespace |
| PrepareTestData.RewriteVocabDocumentUnchanged | src/prepare-test-data.ts:36-41 | a vocabulary document without the namespace is written unchanged, whatever else it mentions |
| PrepareTestData.TestsBaseOnlyInFixtures | src/prepare-test-data.ts:26-28 | the tests base becomes the expanded local URL in a fixture, the local URL as it stands when the test directory has no `$`, but stays as it is in the vocabulary document |
| PrepareTestData.TestsBaseLacksNamespace | src/prepare-test-data.ts:9-27 | the tests base does not contain the vocabulary namespace |
| Index.RemoveQueryOrFragment | src/index.ts:20-26 | the result is a prefix of the URL, holds no `#` or `?`, and ends right before the first `#` or `?` if there is one |
| Strings.IndexOf | src/index.ts:21-22 | -1 or a position where the pattern occurs |
| Strings.IndexOfSpec | src/index.ts:21-22 | -1 exactly when the pattern does not occur; no occurrence lies before the returned position |
| Strings.IndexOfChar | src/index.ts:21-22 | for one character: -1 iff the character is absent, otherwise the position of its first occurrence |
| Index.RemoveQueryOrFragmentIdempotent | src/index.ts:20-26 | stripping twice equals stripping once |
| Index.RemoveQueryOrFragmentOfPlain | src/index.ts:20-26 | a URL with neither `#` nor `?` is returned whole |
| Index.RemoveQueryOrFragmentOfSuffixed | src/index.ts:20-26 | a query or fragment appended to a URL with neither `#` nor `?` is cut off again |
| Index.LocalURL | src/index.ts:109-118 | the fixture path starts with `../test-data/` and holds no `#` or `?` after it |
| Index.LocalURLOfTestsUrl | src/index.ts:109-118 | for a URL under the remote tests prefix, the path is `../test-data/` plus the relative part without query or fragment |
| Index.LocalURLIgnoresPrefix | src/index.ts:114 | only the length of the first 34 characters matters; they are not checked |
| Index.LocalURLOfShort | src/index.ts:114 | a URL no longer than the prefix gives the fixture directory itself |
| Index.BaseIRI | src/index.ts:119-121 | the base name holds no slash |
| Index.BaseIRILastSegment | src/index.ts:119-121 | the base name of a URL ending in a non-empty segment is that segment |
| Index.BaseIRITrailingSlash | src/index.ts:119-121 | a trailing slash does not change the base name |
| Index.PathEndsWith | src/index.ts:51-56 | definition: the URL without query or fragment ends with the suffix |
| Index.FilterByPath | src/index.ts:51-56 | the filtered list holds exactly the entries whose path ends in the suffix, and is no longer than the list |
| Index.FilterByPathAppend | src/index.ts:51-56 | filtering distributes over concatenation |
| Index.CsvIsNotJson | src/index.ts:51-56 | no path ends in both `.csv` and `.json` |
| Strings.ReplaceFirst | src/index.ts:61 | text without the pattern is returned as it is; otherwise only the leftmost occurrence is replaced, by the replacement with its `$` patterns expanded |
| Strings.ReplaceFirstAt | src/index.ts:61 | at the position `indexOf` finds, `replace` puts the expanded template between the text before and after the match |
| Index.DefaultMetadata | src/index.ts:61 | definition: the action with its first `.csv` replaced; its behaviour is stated by `Index.DefaultMetadataOfStem` |
| Index.DefaultMetadataOfStem | src/index.ts:61 | only the first `.csv` becomes `-metadata.json`, which has no `$` and is inserted as it stands; whatever follows it is kept |
| Index.MetadataSuffixPlain | src/index.ts:61 | `-metadata.json` holds no `$` |
| Index.FirstCsvAfterStem | src/index.ts:61 | the first `.csv` starts right after a stem that does not contain it |
| Index.CsvMetadata | src/index.ts:62-66 | the chosen metadata is an implicit JSON file; there is none iff the JSON count is not one and the default name is not among them |
| Index.Resolve | src/index.ts:58-75 | fails with a missing action iff there is no action; fails with "Multiple CSV" iff the action is not tabular and two or more implicit CSVs exist; base is set iff the tabular source is, and is its base name; the action is the tabular source or the metadata |
| Index.ResolveTabularAction | src/index.ts:58-66 | a tabular action is the tabular source and names the base; its metadata is the only implicit JSON, else the listed default name, else none |
| Index.TabularActionIgnoresImplicitCsv | src/index.ts:58-66 | with a tabular action, adding implicit CSV files changes nothing |
| Index.TabularActionDependsOnJsonOnly | src/index.ts:58-66 | with a tabular action, two implicit lists with the same JSON files resolve alike |
| Index.FilterJsonSkipsCsv | src/index.ts:54-56 | appending CSV files leaves the JSON files of the list as they were |
| Index.ResolveMetadataAction | src/index.ts:67-75 | any other action is the metadata; two or more implicit CSVs fail; exactly one is the tabular source and names the base; none leaves both unset |
| Index.LoadLD | src/index.ts:28-32 | the dataset at the `file:` URL of the fixture path; no contract of its own, see `Index.FixtureLoadsIgnoreQuery` |
| Index.LoadCSV | src/index.ts:34-36 | the text of the fixture file; no contract of its own, see `Index.FixtureLoadsIgnoreQuery` |
| Index.FixtureLoadsIgnoreQuery | src/index.ts:28-36 | a query or fragment after a URL of the remote test suite does not change which fixture either loader reads |
| Index.LoadTabular | src/index.ts:59-72 | no source gives no text; a source fails iff it cannot be read, naming its URL, and otherwise gives the fixture text |
| Index.LoadMetadata | src/index.ts:63-70 | no source gives no metadata; a source fails iff it cannot be loaded, naming its URL, and otherwise gives the loaded graph |
| Index.Expected | src/index.ts:47 | no expected graph iff `result` is absent or empty; for a non-empty `result` the run rejects, with that URL, iff loading it fails, and otherwise the expected graph is the loaded one |
| Index.LoadInputs | src/index.ts:59-74 | all inputs load iff each one does; the first failing load in `runTest`'s order decides the rejection |
| Index.ReplaceVocab | src/index.ts:38-43 | the output is what the Turtle parser makes of the serialised dataset with every namespace occurrence replaced by the mirror address, a text that no longer mentions the namespace |
| Index.Actual | src/index.ts:58-84 | the run rejects as unresolved iff the file roles cannot be resolved, with that reason; once resolved, the outcome is that of loading, converting and rewriting the resolved sources in `runTest`'s order |
| Index.Produce | src/index.ts:59-84 | an output exists iff every input loads, the parser converts them and the rewritten output parses back, and it is that re-parsed graph; a failed load rejects with its own error and a failed conversion with `ConversionFailed`; never unresolved |
| Index.Convert | src/index.ts:77-83 | definition: the CSVW parser receives the loaded tabular text, the loaded metadata and the resolved base IRI |
| Index.Compare | src/index.ts:104-105 | succeeds iff the expected result and the output are both there and, unless the test is ERROR, an expected graph exists with the same canonical form; the success value is the output; a failed expected-result load wins |
| Index.RunTest | src/index.ts:45-107 | a failed expected-result load rejects first; otherwise a resolving run carries the converted output. The promise itself resolves to `undefined`: the `Success` value is a modelling device that lets the lemmas speak about the output |
| Index.TestPasses | src/index.ts:133-139 | the verdict: an ERROR test must reject, any other test must resolve; no contract of its own, see the verdict lemmas below |
| Index.ErrorVerdict | src/index.ts:134-135 | an ERROR test passes iff loading the expected result or producing the output rejects |
| Index.ErrorSkipsComparison | src/index.ts:104-105 | the verdict of an ERROR test does not depend on canonicalisation |
| Index.ResolvingVerdict | src/index.ts:104-105 | a PASS or WARN test passes iff nothing rejects, an expected result exists and the canonical forms are equal |
| Index.PassAndWarnAlike | src/index.ts:134-138 | PASS and WARN tests get the same verdict |
| Index.VerdictsExclusive | src/index.ts:134-138 | no entry passes both as an ERROR test and as a PASS test |
| Index.NoProvenanceInert | src/index.ts:85-103 | the `noProvenance` flag does not change a run |
| Index.UnresolvedRejects | src/index.ts:58-70 | an unresolvable specification rejects right after the expected result is loaded, before any input is read |

## Left out

- `src/server.ts` is not part of this model. It is an HTTP listener and its lifecycle.
- `strToStream` (src/utils.ts:3-8) is stream plumbing. The parser receives the tabular text as an
  optional string.
- Filesystem reads and writes, and the directory recursion of `copyAndReplace`
  (src/prepare-test-data.ts:13-24, 29). Only the per-file text transform is modelled.
- The page fetch and the `querySelectorAll` calls (src/crawl-tests.ts:7-11). The page is given as
  the texts of the `dt`s and, per `dd`, the children of its definition list, or none.
- `Utils.DlToDict`: `dl.querySelectorAll("dt")` also finds `dt`s nested deeper in the list. The
  model sees only the list's direct children.
- Writing and reading `cases.json` (src/crawl-tests.ts:32-38, src/index.ts:14-18).
- The RDF library, the CSVW parser, serialisation and canonicalisation (src/index.ts:28-43,
  77-83). They are opaque function parameters.
- `vocab.js`, imported by src/index.ts, is not part of this model. Its constants are taken to be
  those of src/prepare-test-data.ts:9-10, so `replaceVocab` reuses `PrepareTestData.VocabRewrite`.
- WHATWG URL parsing:
  - `PathEndsWith` takes a URL's path to be the URL without its query or fragment, so the scheme
    and host are not separated out;
  - `new URL` throwing on a relative or malformed entry is not modelled;
  - the one throw that is modelled is an absent action (`Index.ResolveError.MissingAction`).
- `import.meta.resolve` and `fileURLToPath` in `localURL` (src/index.ts:110-111). `Index.LocalURL`
  returns the relative path before that resolution.
- `Index.BaseIRI` follows POSIX `basename`: trailing slashes are dropped, then the text after the
  last slash is kept. A suffix argument and Windows separators are not modelled.
- `trim`, `toLowerCase` and `\s` are ASCII-only here. The whitespace set is space, tab, line
  feed, carriage return, vertical tab and form feed. Unicode spaces and non-ASCII case mappings
  are not modelled.
- `replaceAll` with an empty search string is not modelled (`Strings.ReplaceAll` and
  `Strings.ReplaceAllExpanded` require a non-empty pattern). No caller passes one.
- Strings.ReplaceAll: inserts the replacement literally, without the `$` patterns JavaScript
  expands. It is the reference for templates without `$`. `Strings.ReplaceAllExpanded` models
  `$$`, `$&`, `` $` `` and `$'` and is what the rewrites use. `$1`…`$99` and `$<name>` need
  capture groups, which a string pattern never has, so they stay literal in both.
- Strings.ReplaceAllIsSplitJoin: the split/join characterisation is proved for the literal
  replacement only. It applies to `replaceAll` whenever the replacement holds no `$`, which is
  true of `vocabLocalhost` and of `-metadata.json`.
- The commented-out `noProvenance` filter (src/index.ts:85-103) is inert. `Index.NoProvenanceInert`
  states that the flag changes nothing.
- Test registration, the `before`/`after` hooks and the asynchronous sequencing (src/index.ts:123-149).
  The verdict is modelled per test as `Index.TestPasses`.
- PrepareTestData.TestsBaseRewriteEvery: no occurrence of the tests base is left only when the
  local URL does not itself recreate one. The test directory comes from the environment, so
  absence is stated separately, under that condition, by `PrepareTestData.TestsBaseRewriteLeavesNone`,
  for the intermediate text and for the content written.
  The split/join characterisation is stated for a test directory without `$`. A directory with `$` is expanded
  (`PrepareTestData.TestsBaseRewriteMatchedPattern` shows `$&`), but no split/join form is proved
  for it.
