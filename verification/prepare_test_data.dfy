/**
 * The text rewrites that make the CSVW fixtures self-contained: in every fixture the remote
 * test-suite base becomes a `file:` URL of the local copy, and the CSVW vocabulary namespace
 * becomes the address of the local vocabulary mirror. The vocabulary document itself gets only
 * the second rewrite.
 */
module PrepareTestData {
  import opened Strings

  /** The remote base of the CSVW test suite. */
  const TestsBase := "http://www.w3.org/2013/csvw/tests"
  /** The CSVW vocabulary namespace (`vocabOriginal`). */
  const VocabOriginal := "http://www.w3.org/ns/csvw"
  /** Where the local mirror serves the vocabulary document (`vocabLocalhost`). */
  const VocabLocalhost := "http://localhost:8080/csvw.jsonld"

  /** `testDir`: the module's directory with backslashes made forward slashes, then `/../test-data`. */
  function TestDir(moduleDir: string): (dir: string)
    ensures '\\' !in dir
    ensures EndsWith(dir, "/../test-data")
    ensures |dir| == |moduleDir| + 13
    ensures forall k :: 0 <= k < |moduleDir| ==> dir[k] == if moduleDir[k] == '\\' then '/' else moduleDir[k]
  {
    ReplaceCharRemoves(moduleDir, '\\', '/');
    ReplaceCharPointwise(moduleDir, '\\', '/');
    ReplaceAllExpanded(moduleDir, "\\", "/") + "/../test-data"
  }

  /**
   * Every occurrence of the remote test-suite base becomes `"file:/" + testDir`, with the `$`
   * patterns of that replacement expanded; a directory without `$` is inserted as it stands.
   */
  function TestsBaseRewrite(content: string, testDir: string): (r: string)
    ensures '$' !in testDir ==> r == ReplaceAll(content, TestsBase, "file:/" + testDir)
  {
    assert '$' !in testDir ==> '$' !in "file:/" + testDir;
    ReplaceAllExpanded(content, TestsBase, "file:/" + testDir)
  }

  /**
   * Every occurrence of the vocabulary namespace becomes the local mirror's address, which holds
   * no `$` and so is inserted as it stands; no occurrence is left, not even one formed across a
   * replacement.
   */
  function VocabRewrite(content: string): (r: string)
    ensures r == ReplaceAll(content, VocabOriginal, VocabLocalhost)
    ensures !Includes(r, VocabOriginal)
  {
    MirrorAddressBlocksNamespace();
    MirrorAddressPlain();
    ReplaceAllLeavesNone(content, VocabOriginal, VocabLocalhost);
    ReplaceAllExpanded(content, VocabOriginal, VocabLocalhost)
  }

  /** The mirror address holds no `$`, so `replaceAll` inserts it as it stands. */
  lemma MirrorAddressPlain()
    ensures '$' !in VocabLocalhost
  {
    forall i | 0 <= i < |VocabLocalhost| ensures VocabLocalhost[i] != '$' {
    }
  }

  /** The content written for a fixture file: the tests-base rewrite, then the vocabulary rewrite. */
  function RewriteFixture(content: string, testDir: string): (r: string)
    ensures !Includes(r, VocabOriginal)
  {
    VocabRewrite(TestsBaseRewrite(content, testDir))
  }

  /** The content written for the vocabulary document: the vocabulary rewrite only. */
  function RewriteVocabDocument(content: string): (r: string)
    ensures !Includes(r, VocabOriginal)
  {
    VocabRewrite(content)
  }

  /** A vocabulary document without the namespace is written unchanged, even where it mentions the tests base. */
  lemma RewriteVocabDocumentUnchanged(content: string)
    requires !Includes(content, VocabOriginal)
    ensures RewriteVocabDocument(content) == content
  {
    ReplaceAllNoMatch(content, VocabOriginal, VocabLocalhost);
  }

  /**
   * For a directory without `$`, the tests-base rewrite cuts the text at every occurrence of the
   * base and glues it back with the local URL.
   */
  lemma TestsBaseRewriteEvery(content: string, testDir: string)
    ensures '$' !in testDir ==> TestsBaseRewrite(content, testDir) == Join(SplitOn(content, TestsBase), "file:/" + testDir)
    ensures Join(SplitOn(content, TestsBase), TestsBase) == content
    ensures forall i :: 0 <= i < |SplitOn(content, TestsBase)| ==> !Includes(SplitOn(content, TestsBase)[i], TestsBase)
  {
    ReplaceAllIsSplitJoin(content, TestsBase, "file:/" + testDir);
    SplitJoin(content, TestsBase);
    SplitPiecesFree(content, TestsBase);
  }

  /**
   * No occurrence of the tests base is left when the local URL is `$`-free and cannot begin one:
   * its head `f` occurs nowhere in the tests base.
   */
  lemma TestsBaseRewriteLeavesNone(content: string, testDir: string)
    requires '$' !in testDir && NoOccurrenceStartsIn("file:/" + testDir, TestsBase)
    ensures !Includes(TestsBaseRewrite(content, testDir), TestsBase)
    ensures !Includes(RewriteFixture(content, testDir), TestsBase)
  {
    var q := "file:/" + testDir;
    forall j | 1 <= j < |TestsBase| ensures TestsBase[j] != q[0] {
    }
    ReplaceAllLeavesNone(content, TestsBase, q);
    VocabRewriteKeepsNoTestsBase(TestsBaseRewrite(content, testDir));
  }

  /** The vocabulary rewrite cannot create the tests base: the mirror address does not lead into it. */
  lemma VocabRewriteKeepsNoTestsBase(content: string)
    requires !Includes(content, TestsBase)
    ensures !Includes(VocabRewrite(content), TestsBase)
  {
    MirrorAddressBlocksTestsBase();
    ReplaceAllKeepsAbsent(content, VocabOriginal, VocabLocalhost, TestsBase);
  }

  /**
   * The mirror address starts with the tests base's `h`, which the tests base holds nowhere else,
   * and the tests base cannot begin anywhere inside the mirror address.
   */
  lemma MirrorAddressBlocksTestsBase()
    ensures forall j :: 1 <= j < |TestsBase| ==> TestsBase[j] != VocabLocalhost[0]
    ensures NoOccurrenceStartsIn(VocabLocalhost, TestsBase)
  {
    var p, q := TestsBase, VocabLocalhost;
    forall i | 0 <= i < |q| ensures MismatchAt(q, p, i) {
      if i == 0 {
        assert q[i + 7] != p[7];
      } else if i == 12 {
        assert q[i + 1] != p[1];
      } else {
        assert q[i + 0] != p[0];
      }
    }
  }

  /** A `$&` in the directory puts the matched tests base back into the rewritten text. */
  lemma TestsBaseRewriteMatchedPattern(a: string, b: string)
    requires '$' !in a && '$' !in b
    ensures TestsBaseRewrite(TestsBase, a + "$&" + b) == "file:/" + a + TestsBase + b
  {
    var q := "file:/" + (a + "$&" + b);
    assert q == ("file:/" + a) + "$&" + b;
    ReplaceAllExpandedWhole(TestsBase, q);
    ExpandMatched("file:/" + a, b, TestsBase, [], []);
  }

  /**
   * The mirror address starts with the namespace's `h`, which the namespace holds nowhere else,
   * and the namespace cannot begin anywhere inside the mirror address.
   */
  lemma MirrorAddressBlocksNamespace()
    ensures forall j :: 1 <= j < |VocabOriginal| ==> VocabOriginal[j] != VocabLocalhost[0]
    ensures NoOccurrenceStartsIn(VocabLocalhost, VocabOriginal)
  {
    var p, q := VocabOriginal, VocabLocalhost;
    forall i | 0 <= i < |q| ensures MismatchAt(q, p, i) {
      if i == 0 {
        assert q[i + 7] != p[7];
      } else if i == 12 {
        assert q[i + 1] != p[1];
      } else {
        assert q[i + 0] != p[0];
      }
    }
  }

  /** Rewriting the vocabulary twice is the same as rewriting it once. */
  lemma VocabRewriteIdempotent(s: string)
    ensures VocabRewrite(VocabRewrite(s)) == VocabRewrite(s)
  {
    ReplaceAllNoMatch(VocabRewrite(s), VocabOriginal, VocabLocalhost);
  }

  /** A fixture mentioning neither the tests base nor the namespace is written unchanged. */
  lemma RewriteFixtureUnchanged(content: string, testDir: string)
    requires !Includes(content, TestsBase) && !Includes(content, VocabOriginal)
    ensures RewriteFixture(content, testDir) == content
  {
    ReplaceAllExpandedNoMatch(content, TestsBase, "file:/" + testDir);
    ReplaceAllNoMatch(content, VocabOriginal, VocabLocalhost);
  }

  /**
   * The tests base itself becomes the expanded local URL in a fixture, the local URL as it stands
   * when the directory has no `$`, but stays as it is in the vocabulary document.
   */
  lemma TestsBaseOnlyInFixtures(testDir: string)
    ensures RewriteFixture(TestsBase, testDir) == VocabRewrite(Expand("file:/" + testDir, TestsBase, [], []))
    ensures '$' !in testDir ==> RewriteFixture(TestsBase, testDir) == VocabRewrite("file:/" + testDir)
    ensures RewriteVocabDocument(TestsBase) == TestsBase
  {
    var local := "file:/" + testDir;
    ReplaceAllExpandedWhole(TestsBase, local);
    assert '$' !in testDir ==> '$' !in local;
    TestsBaseLacksNamespace();
    RewriteVocabDocumentUnchanged(TestsBase);
  }

  /** The tests base does not contain the vocabulary namespace: they part at their 19th character. */
  lemma TestsBaseLacksNamespace()
    ensures !Includes(TestsBase, VocabOriginal)
  {
    forall i | 0 <= i <= |TestsBase| - |VocabOriginal| ensures !OccursAt(TestsBase, i, VocabOriginal) {
      assert TestsBase[i + 18] != VocabOriginal[18];
    }
  }
}
