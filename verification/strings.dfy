/**
 * The JavaScript string built-ins the harness relies on, over `string = seq<char>`:
 * `trim`, `toLowerCase`, `indexOf`, `includes`, `endsWith`, `replace` and `replaceAll`
 * with a string pattern, and `split(/\s+/)`. Whitespace and letter case are ASCII only.
 */
module Strings {

  /** The ASCII characters matched by `\s` and removed by `trim`. */
  predicate IsWs(c: char) {
    c == ' ' || c == '\t' || c == '\n' || c == '\r' || c == '\U{000B}' || c == '\U{000C}'
  }

  predicate AllWs(s: string) {
    forall k :: 0 <= k < |s| ==> IsWs(s[k])
  }

  predicate NoWs(s: string) {
    forall k :: 0 <= k < |s| ==> !IsWs(s[k])
  }

  /** Neither the first nor the last character is whitespace (what `trim` leaves). */
  predicate NoEdgeWs(s: string) {
    s == [] || (!IsWs(s[0]) && !IsWs(s[|s| - 1]))
  }

  // ---------------------------------------------------------------- trim

  function TrimStart(s: string): (r: string)
    ensures |r| <= |s| && r == s[|s| - |r|..]
    ensures r == [] || !IsWs(r[0])
  {
    if |s| > 0 && IsWs(s[0]) then TrimStart(s[1..]) else s
  }

  /** What `TrimStart` removes is whitespace. */
  lemma {:induction false} TrimStartRemovesWs(s: string)
    ensures AllWs(s[..|s| - |TrimStart(s)|])
    decreases |s|
  {
    if |s| > 0 && IsWs(s[0]) {
      var t := s[1..];
      var n := |t| - |TrimStart(t)|;
      TrimStartRemovesWs(t);
      assert TrimStart(s) == TrimStart(t);
      var removed, rest := s[..n + 1], t[..n];
      forall k | 0 <= k < |removed| ensures IsWs(removed[k]) {
        if k > 0 {
          assert removed[k] == rest[k - 1];
        }
      }
    }
  }

  function TrimEnd(s: string): (r: string)
    ensures |r| <= |s| && r == s[..|r|]
    ensures r == [] || !IsWs(r[|r| - 1])
  {
    if |s| > 0 && IsWs(s[|s| - 1]) then TrimEnd(s[..|s| - 1]) else s
  }

  /** What `TrimEnd` removes is whitespace. */
  lemma {:induction false} TrimEndRemovesWs(s: string)
    ensures AllWs(s[|TrimEnd(s)|..])
    decreases |s|
  {
    if |s| > 0 && IsWs(s[|s| - 1]) {
      var t := s[..|s| - 1];
      TrimEndRemovesWs(t);
      assert s[|TrimEnd(s)|..] == t[|TrimEnd(t)|..] + [s[|s| - 1]];
    }
  }

  /** `s.trim()`: `s` with its leading and trailing whitespace removed. */
  function Trim(s: string): (r: string)
    ensures NoEdgeWs(r)
  {
    var t := TrimStart(s);
    var r := TrimEnd(t);
    assert r == [] || r[0] == t[0];
    r
  }

  /** `Trim` removes whitespace at the edges and nothing else. */
  lemma TrimRemovesOnlyEdges(s: string)
    ensures exists i :: TrimmedAt(s, i, Trim(s))
  {
    var t := TrimStart(s);
    var r := TrimEnd(t);
    var i := |s| - |t|;
    TrimStartRemovesWs(s);
    TrimEndRemovesWs(t);
    assert Trim(s) == r;
    assert t == s[i..] && r == t[..|r|];
    assert s[i..i + |r|] == r;
    assert s[i + |r|..] == t[|r|..];
    assert TrimmedAt(s, i, r);
  }

  /** `r` occurs in `s` at `i`, with only whitespace before and after it. */
  predicate TrimmedAt(s: string, i: int, r: string) {
    0 <= i <= |s| - |r| && s[i..i + |r|] == r && AllWs(s[..i]) && AllWs(s[i + |r|..])
  }

  /** Trimming text that has no edge whitespace changes nothing. */
  lemma TrimNoEdge(s: string)
    requires NoEdgeWs(s)
    ensures Trim(s) == s
  {
  }

  // ---------------------------------------------------------------- toLowerCase

  function LowerChar(c: char): char {
    if 'A' <= c <= 'Z' then (c as int + 32) as char else c
  }

  /** `s.toLowerCase()` on ASCII letters: every character is lowered in place. */
  function ToLower(s: string): (r: string)
    ensures |r| == |s|
    ensures forall k :: 0 <= k < |s| ==> r[k] == LowerChar(s[k])
  {
    if s == [] then [] else [LowerChar(s[0])] + ToLower(s[1..])
  }

  predicate IsLower(s: string) {
    forall k :: 0 <= k < |s| ==> !('A' <= s[k] <= 'Z')
  }

  /** Lower-casing leaves no upper-case letter, is idempotent and keeps whitespace where it was. */
  lemma ToLowerFacts(s: string)
    ensures IsLower(ToLower(s))
    ensures ToLower(ToLower(s)) == ToLower(s)
    ensures forall k :: 0 <= k < |s| ==> (IsWs(ToLower(s)[k]) <==> IsWs(s[k]))
    ensures NoEdgeWs(s) ==> NoEdgeWs(ToLower(s))
  {
    var r := ToLower(s);
    var rr := ToLower(r);
    forall k | 0 <= k < |s| ensures rr[k] == r[k] && !('A' <= r[k] <= 'Z') && (IsWs(r[k]) <==> IsWs(s[k])) {
      LowerCharFacts(s[k]);
    }
    assert rr == r;
  }

  lemma LowerCharFacts(c: char)
    ensures LowerChar(LowerChar(c)) == LowerChar(c)
    ensures !('A' <= LowerChar(c) <= 'Z')
    ensures IsWs(LowerChar(c)) <==> IsWs(c)
  {
  }

  // ---------------------------------------------------------------- indexOf, includes, endsWith

  predicate StartsWith(s: string, p: string) {
    |p| <= |s| && s[..|p|] == p
  }

  predicate EndsWith(s: string, p: string) {
    |p| <= |s| && s[|s| - |p|..] == p
  }

  predicate OccursAt(s: string, i: int, p: string) {
    0 <= i && i + |p| <= |s| && s[i..i + |p|] == p
  }

  /** `s.includes(p)`. */
  predicate Includes(s: string, p: string) {
    exists i | 0 <= i <= |s| - |p| :: OccursAt(s, i, p)
  }

  /** An occurrence at position `i >= 1` is an occurrence at `i - 1` in the text without its first character. */
  lemma OccursShift(s: string, p: string, i: int)
    requires s != [] && 1 <= i
    ensures OccursAt(s, i, p) <==> OccursAt(s[1..], i - 1, p)
  {
    if i + |p| <= |s| {
      assert s[1..][i - 1..i - 1 + |p|] == s[i..i + |p|];
    }
  }

  /** `s.indexOf(p)`: the leftmost position where `p` occurs, or -1 when it does not occur. */
  function IndexOf(s: string, p: string): (r: int)
    ensures r == -1 || 0 <= r <= |s| - |p|
    ensures r >= 0 ==> OccursAt(s, r, p)
    decreases |s|
  {
    if StartsWith(s, p) then 0
    else if |s| <= |p| then -1
    else
      var j := IndexOf(s[1..], p);
      if j < 0 then -1
      else
        assert s[1..][j..j + |p|] == s[j + 1..j + 1 + |p|];
        j + 1
  }

  /** `indexOf` is -1 exactly when the pattern does not occur, and no occurrence lies before it. */
  lemma {:induction false} IndexOfSpec(s: string, p: string)
    ensures IndexOf(s, p) == -1 <==> !Includes(s, p)
    ensures forall j :: 0 <= j < IndexOf(s, p) ==> !OccursAt(s, j, p)
    decreases |s|
  {
    var r := IndexOf(s, p);
    if r >= 0 {
      assert OccursAt(s, r, p);
    }
    if StartsWith(s, p) {
    } else if |s| <= |p| {
      forall i | 0 <= i <= |s| - |p| ensures !OccursAt(s, i, p) {
        assert i == 0;
      }
    } else {
      IndexOfSpec(s[1..], p);
      assert !OccursAt(s, 0, p);
      forall i | 1 <= i <= |s| - |p| ensures OccursAt(s, i, p) <==> OccursAt(s[1..], i - 1, p) {
        OccursShift(s, p, i);
      }
    }
  }

  /** A one-character pattern occurs exactly where that character stands. */
  lemma OccursAtChar(s: string, j: int, c: char)
    requires 0 <= j < |s|
    ensures OccursAt(s, j, [c]) <==> s[j] == c
  {
    assert s[j..j + 1] == [s[j]];
  }

  /** For a one-character pattern, `indexOf` is the position of the first occurrence of that character. */
  lemma IndexOfChar(s: string, c: char)
    ensures IndexOf(s, [c]) == -1 <==> c !in s
    ensures IndexOf(s, [c]) >= 0 ==> IndexOf(s, [c]) < |s| && s[IndexOf(s, [c])] == c
    ensures forall j :: 0 <= j < IndexOf(s, [c]) ==> s[j] != c
  {
    var r := IndexOf(s, [c]);
    IndexOfSpec(s, [c]);
    if r >= 0 {
      OccursAtChar(s, r, c);
    }
    forall j | 0 <= j < r ensures s[j] != c {
      OccursAtChar(s, j, c);
    }
    if c in s {
      var j :| 0 <= j < |s| && s[j] == c;
      OccursAtChar(s, j, c);
    }
  }

  // ---------------------------------------------------------------- replacement patterns

  /**
   * The text `replace` and `replaceAll` insert for one match of a string pattern, the template
   * `q` expanded as ECMAScript's GetSubstitution does when there are no capture groups: `$$` is
   * one `$`, `$&` the matched text, `` $` `` the text before the match and `$'` the text after it;
   * any other `$` stands for itself.
   */
  function Expand(q: string, matched: string, before: string, after: string): (r: string)
    ensures '$' !in q ==> r == q
    decreases |q|
  {
    if q == [] then []
    else if q[0] == '$' && |q| >= 2 && q[1] == '$' then "$" + Expand(q[2..], matched, before, after)
    else if q[0] == '$' && |q| >= 2 && q[1] == '&' then matched + Expand(q[2..], matched, before, after)
    else if q[0] == '$' && |q| >= 2 && q[1] == '`' then before + Expand(q[2..], matched, before, after)
    else if q[0] == '$' && |q| >= 2 && q[1] == '\'' then after + Expand(q[2..], matched, before, after)
    else [q[0]] + Expand(q[1..], matched, before, after)
  }

  /** A `$&` in an otherwise plain template is replaced by the matched text. */
  lemma ExpandMatched(a: string, b: string, matched: string, before: string, after: string)
    requires '$' !in a && '$' !in b
    ensures Expand(a + "$&" + b, matched, before, after) == a + matched + b
  {
    var t := "$&" + b;
    assert a + "$&" + b == a + t;
    ExpandPlainPrefix(a, t, matched, before, after);
    assert t[0] == '$' && t[1] == '&' && t[2..] == b;
    assert Expand(t, matched, before, after) == matched + Expand(b, matched, before, after);
  }

  /** A template prefix without `$` is copied as it stands. */
  lemma {:induction false} ExpandPlainPrefix(a: string, t: string, matched: string, before: string, after: string)
    requires '$' !in a
    ensures Expand(a + t, matched, before, after) == a + Expand(t, matched, before, after)
    decreases |a|
  {
    if a == [] {
      assert a + t == t;
    } else {
      var q, e := a + t, Expand(t, matched, before, after);
      assert q[0] == a[0] != '$';
      ExpandPlainHead(q, matched, before, after);
      assert q[1..] == a[1..] + t;
      ExpandPlainPrefix(a[1..], t, matched, before, after);
      ConsSplit(a, e);
    }
  }

  /** A template starting with anything but `$` copies its first character. */
  lemma ExpandPlainHead(q: string, matched: string, before: string, after: string)
    requires q != [] && q[0] != '$'
    ensures Expand(q, matched, before, after) == [q[0]] + Expand(q[1..], matched, before, after)
  {
  }

  lemma ConsSplit(a: string, e: string)
    requires a != []
    ensures [a[0]] + (a[1..] + e) == a + e
  {
    assert a == [a[0]] + a[1..];
  }

  // ---------------------------------------------------------------- replace (first occurrence)

  /** `r` is `s` with the occurrence of `p` at `k`, the leftmost one, replaced by the expanded `q`. */
  predicate FirstReplacedAt(s: string, p: string, q: string, k: int, r: string) {
    && OccursAt(s, k, p)
    && (forall j :: 0 <= j < k ==> !OccursAt(s, j, p))
    && r == s[..k] + Expand(q, p, s[..k], s[k + |p|..]) + s[k + |p|..]
  }

  /** `s.replace(p, q)` with a string pattern: only the leftmost occurrence of `p` is replaced. */
  function ReplaceFirst(s: string, p: string, q: string): (r: string)
    ensures !Includes(s, p) ==> r == s
    ensures Includes(s, p) ==> exists k :: FirstReplacedAt(s, p, q, k, r)
  {
    IndexOfSpec(s, p);
    var k := IndexOf(s, p);
    if k < 0 then s
    else
      var r := s[..k] + Expand(q, p, s[..k], s[k + |p|..]) + s[k + |p|..];
      assert FirstReplacedAt(s, p, q, k, r);
      r
  }

  /** Where `replace` finds its first occurrence, it puts the expanded template in its place. */
  lemma ReplaceFirstAt(s: string, p: string, q: string)
    requires IndexOf(s, p) >= 0
    ensures var k := IndexOf(s, p);
            ReplaceFirst(s, p, q) == s[..k] + Expand(q, p, s[..k], s[k + |p|..]) + s[k + |p|..]
  {
  }

  // ---------------------------------------------------------------- replaceAll

  /**
   * `s.replaceAll(p, q)` with a non-empty string pattern and a template `q` without `$`: a
   * left-to-right scan that replaces every occurrence of `p` it meets by `q` as it stands and
   * resumes after it, so occurrences do not overlap. `ReplaceAllExpanded` is the general case.
   */
  function ReplaceAll(s: string, p: string, q: string): string
    requires p != []
    decreases |s|
  {
    if |s| < |p| then s
    else if s[..|p|] == p then q + ReplaceAll(s[|p|..], p, q)
    else [s[0]] + ReplaceAll(s[1..], p, q)
  }

  /**
   * `s.replaceAll(p, q)` with a non-empty string pattern and any template: each occurrence is
   * replaced by the template expanded for that match. Without `$` it is `ReplaceAll`.
   */
  function ReplaceAllExpanded(s: string, p: string, q: string): (r: string)
    requires p != []
    ensures '$' !in q ==> r == ReplaceAll(s, p, q)
  {
    var r := ReplaceAllFrom(s, 0, p, q);
    assert '$' !in q ==> r == ReplaceAll(s, p, q) by {
      if '$' !in q {
        ReplaceAllFromLiteral(s, 0, p, q);
        assert s[0..] == s;
      }
    }
    r
  }

  /** The scan of `ReplaceAllExpanded` from position `i`, which keeps the text before the match in view. */
  function ReplaceAllFrom(s: string, i: nat, p: string, q: string): string
    requires p != [] && i <= |s|
    decreases |s| - i
  {
    if |s| - i < |p| then s[i..]
    else if s[i..i + |p|] == p then Expand(q, p, s[..i], s[i + |p|..]) + ReplaceAllFrom(s, i + |p|, p, q)
    else [s[i]] + ReplaceAllFrom(s, i + 1, p, q)
  }

  lemma {:induction false} ReplaceAllFromLiteral(s: string, i: nat, p: string, q: string)
    requires p != [] && i <= |s| && '$' !in q
    ensures ReplaceAllFrom(s, i, p, q) == ReplaceAll(s[i..], p, q)
    decreases |s| - i
  {
    var t := s[i..];
    if |s| - i >= |p| {
      assert t[..|p|] == s[i..i + |p|];
      if s[i..i + |p|] == p {
        ReplaceAllFromLiteral(s, i + |p|, p, q);
        assert t[|p|..] == s[i + |p|..];
        assert ReplaceAll(t, p, q) == q + ReplaceAll(t[|p|..], p, q);
        assert Expand(q, p, s[..i], s[i + |p|..]) == q;
      } else {
        ReplaceAllFromLiteral(s, i + 1, p, q);
        assert t[0] == s[i] && t[1..] == s[i + 1..];
        assert ReplaceAll(t, p, q) == [t[0]] + ReplaceAll(t[1..], p, q);
      }
    }
  }

  /** Whatever the template, text without the pattern is returned unchanged. */
  lemma ReplaceAllExpandedNoMatch(s: string, p: string, q: string)
    requires p != [] && !Includes(s, p)
    ensures ReplaceAllExpanded(s, p, q) == s
  {
    ReplaceAllFromNoMatch(s, 0, p, q);
  }

  lemma {:induction false} ReplaceAllFromNoMatch(s: string, i: nat, p: string, q: string)
    requires p != [] && i <= |s|
    requires forall j :: i <= j <= |s| - |p| ==> !OccursAt(s, j, p)
    ensures ReplaceAllFrom(s, i, p, q) == s[i..]
    decreases |s| - i
  {
    if |s| - i >= |p| {
      assert !OccursAt(s, i, p);
      ReplaceAllFromNoMatch(s, i + 1, p, q);
      assert s[i..] == [s[i]] + s[i + 1..];
    }
  }

  /** A text that is exactly the pattern becomes the template expanded with nothing around the match. */
  lemma ReplaceAllExpandedWhole(p: string, q: string)
    requires p != []
    ensures ReplaceAllExpanded(p, p, q) == Expand(q, p, [], [])
  {
    assert p[0..0 + |p|] == p && p[..0] == [] && p[0 + |p|..] == [];
    assert ReplaceAllFrom(p, |p|, p, q) == [];
    assert ReplaceAllFrom(p, 0, p, q) == Expand(q, p, [], []) + [];
  }

  /** `s.split(sep)` with a non-empty literal separator, cutting at leftmost occurrences. */
  function SplitOn(s: string, sep: string): (parts: seq<string>)
    requires sep != []
    ensures |parts| >= 1
    decreases |s|, 1
  {
    SplitAt(s, sep, IndexOf(s, sep))
  }

  /** The split of `s` whose first occurrence of `sep` is at `k`, or which has none when `k` is -1. */
  function SplitAt(s: string, sep: string, k: int): (parts: seq<string>)
    requires sep != [] && (k == -1 || 0 <= k <= |s| - |sep|)
    ensures |parts| >= 1
    decreases |s|, 0
  {
    if k < 0 then [s] else [s[..k]] + SplitOn(s[k + |sep|..], sep)
  }

  /** `parts.join(sep)`. */
  function Join(parts: seq<string>, sep: string): string {
    if |parts| == 0 then []
    else if |parts| == 1 then parts[0]
    else parts[0] + sep + Join(parts[1..], sep)
  }

  /** Joining the pieces of a split with the separator gives the text back. */
  lemma {:induction false} SplitJoin(s: string, sep: string)
    requires sep != []
    ensures Join(SplitOn(s, sep), sep) == s
    decreases |s|
  {
    var k := IndexOf(s, sep);
    if k >= 0 {
      var rest := s[k + |sep|..];
      var tail := SplitOn(rest, sep);
      SplitOnAt(s, sep, k);
      SplitJoin(rest, sep);
      JoinCons(s[..k], tail, sep);
      IndexOfSpec(s, sep);
      SliceThree(s, k, k + |sep|);
    }
  }

  lemma SliceThree(s: string, i: nat, j: nat)
    requires i <= j <= |s|
    ensures s == s[..i] + s[i..j] + s[j..]
  {
    assert s[..j] == s[..i] + s[i..j];
  }

  lemma JoinCons(head: string, tail: seq<string>, sep: string)
    requires |tail| >= 1
    ensures Join([head] + tail, sep) == head + sep + Join(tail, sep)
  {
    assert ([head] + tail)[1..] == tail;
  }

  /** No piece of a split contains the separator. */
  lemma {:induction false} SplitPiecesFree(s: string, sep: string)
    requires sep != []
    ensures forall i :: 0 <= i < |SplitOn(s, sep)| ==> !Includes(SplitOn(s, sep)[i], sep)
    decreases |s|
  {
    var k := IndexOf(s, sep);
    IndexOfSpec(s, sep);
    if k >= 0 {
      SplitOnAt(s, sep, k);
      SplitPiecesFree(s[k + |sep|..], sep);
      var head := s[..k];
      forall j | 0 <= j <= |head| - |sep| ensures !OccursAt(head, j, sep) {
        assert !OccursAt(s, j, sep);
        assert head[j..j + |sep|] == s[j..j + |sep|];
      }
    }
  }

  /**
   * The scan of `ReplaceAll` agrees with the split/join reading of `replaceAll`: the text is cut
   * at every (leftmost, non-overlapping) occurrence of the pattern and glued back with the
   * replacement. With `SplitJoin` and `SplitPiecesFree` this says every occurrence is replaced.
   */
  lemma {:induction false} ReplaceAllIsSplitJoin(s: string, p: string, q: string)
    requires p != []
    ensures ReplaceAll(s, p, q) == Join(SplitOn(s, p), q)
    decreases |s|
  {
    var k := IndexOf(s, p);
    if k < 0 {
      IndexOfSpec(s, p);
      ReplaceAllNoMatch(s, p, q);
    } else if k == 0 {
      ReplaceAllIsSplitJoin(s[|p|..], p, q);
      SplitJoinAtStart(s, p, q);
    } else {
      ReplaceAllIsSplitJoin(s[1..], p, q);
      SplitJoinAfterStart(s, p, q);
    }
  }

  lemma SplitJoinAtStart(s: string, p: string, q: string)
    requires p != [] && IndexOf(s, p) == 0
    ensures ReplaceAll(s, p, q) == q + ReplaceAll(s[|p|..], p, q)
    ensures Join(SplitOn(s, p), q) == q + Join(SplitOn(s[|p|..], p), q)
  {
    var rest := s[|p|..];
    assert s[..|p|] == p;
    assert SplitOn(s, p) == [[]] + SplitOn(rest, p);
    JoinCons([], SplitOn(rest, p), q);
  }

  lemma SplitJoinAfterStart(s: string, p: string, q: string)
    requires p != [] && IndexOf(s, p) > 0
    ensures ReplaceAll(s, p, q) == [s[0]] + ReplaceAll(s[1..], p, q)
    ensures Join(SplitOn(s, p), q) == [s[0]] + Join(SplitOn(s[1..], p), q)
  {
    assert !StartsWith(s, p) && |s| > |p|;
    SplitOnAfterStart(s, p, q);
  }

  /** Before the first occurrence, the split/join reading keeps the first character and moves on. */
  lemma SplitOnAfterStart(s: string, p: string, q: string)
    requires p != [] && IndexOf(s, p) > 0
    ensures Join(SplitOn(s, p), q) == [s[0]] + Join(SplitOn(s[1..], p), q)
  {
    var k := IndexOf(s, p);
    var t := s[1..];
    SplitOnAt(s, p, k);
    SplitOnAfterHead(s, p, k);
    SlicesAfterHead(s, k, |p|);
    JoinShift(s[..k], s[0], t[..k - 1], SplitOn(s[k + |p|..], p), q);
  }

  /** The split of the text without its first character, when the first occurrence is at `k > 0`. */
  lemma SplitOnAfterHead(s: string, p: string, k: int)
    requires p != [] && k > 0 && IndexOf(s, p) == k
    ensures SplitOn(s[1..], p) == [s[1..][..k - 1]] + SplitOn(s[k + |p|..], p)
  {
    var t, u := s[1..], s[k + |p|..];
    assert t[k - 1 + |p|..] == u by {
      SlicesAfterHead(s, k, |p|);
    }
    assert SplitOn(t, p) == [t[..k - 1]] + SplitOn(t[k - 1 + |p|..], p) by {
      IndexOfStep(s, p);
      SplitOnAt(t, p, k - 1);
    }
    assert SplitOn(t[k - 1 + |p|..], p) == SplitOn(u, p);
  }

  lemma SlicesAfterHead(s: string, k: int, n: nat)
    requires 1 <= k && k + n <= |s|
    ensures s[1..][k - 1 + n..] == s[k + n..]
    ensures s[..k] == [s[0]] + s[1..][..k - 1]
  {
  }

  lemma JoinShift(a: string, c: char, b: string, tail: seq<string>, q: string)
    requires a == [c] + b && |tail| >= 1
    ensures Join([a] + tail, q) == [c] + Join([b] + tail, q)
  {
    JoinCons(a, tail, q);
    JoinCons(b, tail, q);
  }

  /** Unfolding `SplitOn` once at an occurrence. */
  lemma SplitOnAt(s: string, sep: string, k: int)
    requires sep != [] && k >= 0 && IndexOf(s, sep) == k
    ensures SplitOn(s, sep) == [s[..k]] + SplitOn(s[k + |sep|..], sep)
  {
    assert SplitOn(s, sep) == SplitAt(s, sep, k);
  }

  lemma IndexOfStep(s: string, p: string)
    requires IndexOf(s, p) > 0
    ensures IndexOf(s[1..], p) == IndexOf(s, p) - 1
  {
  }

  /** Text without the pattern is returned unchanged. */
  lemma {:induction false} ReplaceAllNoMatch(s: string, p: string, q: string)
    requires p != []
    requires !Includes(s, p)
    ensures ReplaceAll(s, p, q) == s
    decreases |s|
  {
    if |s| >= |p| {
      assert !OccursAt(s, 0, p);
      var t := s[1..];
      forall j | 0 <= j <= |t| - |p| ensures !OccursAt(t, j, p) {
        assert !OccursAt(s, j + 1, p);
        assert t[j..j + |p|] == s[j + 1..j + 1 + |p|];
      }
      ReplaceAllNoMatch(t, p, q);
    }
  }

  /** Replacing one character by another leaves none of the first. */
  lemma {:induction false} ReplaceCharRemoves(s: string, c: char, d: char)
    requires c != d
    ensures c !in ReplaceAll(s, [c], [d])
    decreases |s|
  {
    if |s| >= 1 {
      ReplaceCharRemoves(s[1..], c, d);
    }
  }

  /** Replacing a single character keeps the length and changes exactly the positions holding it. */
  lemma {:induction false} ReplaceCharPointwise(s: string, c: char, d: char)
    ensures |ReplaceAll(s, [c], [d])| == |s|
    ensures forall k :: 0 <= k < |s| ==> ReplaceAll(s, [c], [d])[k] == if s[k] == c then d else s[k]
    decreases |s|
  {
    if |s| >= 1 {
      var r, rest := ReplaceAll(s, [c], [d]), ReplaceAll(s[1..], [c], [d]);
      ReplaceCharPointwise(s[1..], c, d);
      assert s[..1] == [c] <==> s[0] == c;
      assert r == [if s[0] == c then d else s[0]] + rest;
      forall k | 0 <= k < |s| ensures r[k] == if s[k] == c then d else s[k] {
        if k > 0 {
          assert r[k] == rest[k - 1] && s[1..][k - 1] == s[k];
        }
      }
    }
  }

  /** `p` placed at position `i` of `q` disagrees with `q` before `q` ends. */
  predicate MismatchAt(q: string, p: string, i: int) {
    exists j :: 0 <= j < |p| && i + j < |q| && 0 <= i + j && q[i + j] != p[j]
  }

  /** Every place inside `q` where `p` could begin disagrees with `p` before `q` ends. */
  predicate NoOccurrenceStartsIn(q: string, p: string) {
    forall i :: 0 <= i < |q| ==> MismatchAt(q, p, i)
  }

  /** Text starts with a non-empty prefix exactly when the first characters agree and the rest does. */
  lemma StartsWithCons(c: char, s: string, d: char, w: string)
    ensures StartsWith([c] + s, [d] + w) <==> c == d && StartsWith(s, w)
  {
    if |w| <= |s| {
      assert ([c] + s)[..|w| + 1] == [c] + s[..|w|];
      assert ([c] + s[..|w|])[0] == c && ([c] + s[..|w|])[1..] == s[..|w|];
      assert ([d] + w)[0] == d && ([d] + w)[1..] == w;
    }
  }

  /**
   * When the replacement starts with a character that `p` holds only at its head, replacing
   * cannot make text start with a proper suffix of `p` that it did not start with before.
   */
  lemma {:induction false} ReplaceAllHeads(t: string, p: string, q: string, w: string, k: nat)
    requires p != [] && q != [] && forall j :: 1 <= j < |w| ==> w[j] != q[0]
    requires 1 <= k < |w|
    requires !StartsWith(t, w[k..])
    ensures !StartsWith(ReplaceAll(t, p, q), w[k..])
    decreases |t|
  {
    var u := w[k..];
    var out := ReplaceAll(t, p, q);
    assert u == [u[0]] + u[1..];
    if |t| < |p| {
      assert out == t;
    } else if t[..|p|] == p {
      var rest := ReplaceAll(t[|p|..], p, q);
      assert out == [q[0]] + (q[1..] + rest);
      StartsWithCons(q[0], q[1..] + rest, u[0], u[1..]);
    } else {
      var rest := ReplaceAll(t[1..], p, q);
      assert out == [t[0]] + rest;
      assert t == [t[0]] + t[1..];
      StartsWithCons(t[0], t[1..], u[0], u[1..]);
      StartsWithCons(t[0], rest, u[0], u[1..]);
      if t[0] == u[0] && k + 1 < |w| {
        assert u[1..] == w[k + 1..];
        ReplaceAllHeads(t[1..], p, q, w, k + 1);
      }
    }
  }

  /** When `p` cannot begin inside `q`, an occurrence in `q + rest` can only lie inside `rest`. */
  lemma NoOccurrenceAfterBlock(q: string, rest: string, p: string)
    requires NoOccurrenceStartsIn(q, p) && !Includes(rest, p)
    ensures !Includes(q + rest, p)
  {
    var out := q + rest;
    forall i | 0 <= i <= |out| - |p| ensures !OccursAt(out, i, p) {
      if i < |q| {
        assert MismatchAt(q, p, i);
        var j :| 0 <= j < |p| && i + j < |q| && 0 <= i + j && q[i + j] != p[j];
        assert out[i..i + |p|][j] == out[i + j] == q[i + j];
      } else {
        assert !OccursAt(rest, i - |q|, p);
        assert out[i..i + |p|] == rest[i - |q|..i - |q| + |p|];
      }
    }
  }

  /** An occurrence in `[c] + rest` that is not at the start lies inside `rest`. */
  lemma NoOccurrenceAfterChar(c: char, rest: string, p: string)
    requires !StartsWith([c] + rest, p) && !Includes(rest, p)
    ensures !Includes([c] + rest, p)
  {
    var out := [c] + rest;
    assert !OccursAt(out, 0, p) by {
      assert OccursAt(out, 0, p) ==> StartsWith(out, p);
    }
    forall i | 1 <= i <= |out| - |p| ensures !OccursAt(out, i, p) {
      assert !OccursAt(rest, i - 1, p);
      assert out[i..i + |p|] == rest[i - 1..i - 1 + |p|];
    }
  }

  /**
   * Under the same condition on the head of `q`, and when no occurrence of `p` can begin inside
   * `q`, replacing leaves no occurrence of `p`, not even one formed across a replacement.
   */
  lemma {:induction false} ReplaceAllLeavesNone(s: string, p: string, q: string)
    requires p != [] && q != [] && forall j :: 1 <= j < |p| ==> p[j] != q[0]
    requires NoOccurrenceStartsIn(q, p)
    ensures !Includes(ReplaceAll(s, p, q), p)
    decreases |s|
  {
    var out := ReplaceAll(s, p, q);
    if |s| < |p| {
      assert out == s;
    } else if s[..|p|] == p {
      var rest := ReplaceAll(s[|p|..], p, q);
      ReplaceAllLeavesNone(s[|p|..], p, q);
      assert out == q + rest;
      NoOccurrenceAfterBlock(q, rest, p);
    } else {
      var rest := ReplaceAll(s[1..], p, q);
      ReplaceAllLeavesNone(s[1..], p, q);
      assert out == [s[0]] + rest;
      assert s == [s[0]] + s[1..];
      assert p == [p[0]] + p[1..];
      StartsWithCons(s[0], s[1..], p[0], p[1..]);
      StartsWithCons(s[0], rest, p[0], p[1..]);
      if s[0] == p[0] && |p| > 1 {
        ReplaceAllHeads(s[1..], p, q, p, 1);
      }
      NoOccurrenceAfterChar(s[0], rest, p);
    }
  }

  /** A text without `w` has no `w` in any of its suffixes. */
  lemma NoOccurrenceInSuffix(s: string, w: string, n: nat)
    requires n <= |s| && !Includes(s, w)
    ensures !Includes(s[n..], w)
  {
    forall i | 0 <= i <= |s[n..]| - |w| ensures !OccursAt(s[n..], i, w) {
      assert !OccursAt(s, n + i, w);
      assert s[n..][i..i + |w|] == s[n + i..n + i + |w|];
    }
  }

  /**
   * Replacing `p` by `q` creates no occurrence of another text `w` that was absent: `w` cannot
   * begin inside `q`, and `q`'s head occurs in `w` only at its own head, so no occurrence can
   * run into a replacement either.
   */
  lemma {:induction false} ReplaceAllKeepsAbsent(s: string, p: string, q: string, w: string)
    requires p != [] && q != [] && forall j :: 1 <= j < |w| ==> w[j] != q[0]
    requires NoOccurrenceStartsIn(q, w) && !Includes(s, w)
    ensures !Includes(ReplaceAll(s, p, q), w)
    decreases |s|
  {
    var out := ReplaceAll(s, p, q);
    assert OccursAt(s, 0, w) ==> StartsWith(s, w);
    if |s| < |p| {
      assert out == s;
    } else if s[..|p|] == p {
      var rest := ReplaceAll(s[|p|..], p, q);
      NoOccurrenceInSuffix(s, w, |p|);
      ReplaceAllKeepsAbsent(s[|p|..], p, q, w);
      assert out == q + rest;
      NoOccurrenceAfterBlock(q, rest, w);
    } else {
      var rest := ReplaceAll(s[1..], p, q);
      NoOccurrenceInSuffix(s, w, 1);
      ReplaceAllKeepsAbsent(s[1..], p, q, w);
      assert out == [s[0]] + rest;
      if w != [] {
        assert s == [s[0]] + s[1..];
        assert w == [w[0]] + w[1..];
        StartsWithCons(s[0], s[1..], w[0], w[1..]);
        StartsWithCons(s[0], rest, w[0], w[1..]);
        if s[0] == w[0] && |w| > 1 {
          ReplaceAllHeads(s[1..], p, q, w, 1);
        }
      }
      NoOccurrenceAfterChar(s[0], rest, w);
    }
  }

  // ---------------------------------------------------------------- split(/\s+/)

  /** Length of the longest whitespace-free prefix. */
  function TokenLength(s: string): (n: nat)
    ensures n <= |s|
  {
    if s == [] || IsWs(s[0]) then 0 else 1 + TokenLength(s[1..])
  }

  /** Length of the longest all-whitespace prefix. */
  function WsRunLength(s: string): (n: nat)
    ensures n <= |s|
  {
    if s != [] && IsWs(s[0]) then 1 + WsRunLength(s[1..]) else 0
  }

  /** `TokenLength` stops exactly at the first whitespace character. */
  lemma {:induction false} TokenLengthSpec(s: string)
    ensures NoWs(s[..TokenLength(s)])
    ensures TokenLength(s) < |s| ==> IsWs(s[TokenLength(s)])
    decreases |s|
  {
    if s != [] && !IsWs(s[0]) {
      TokenLengthSpec(s[1..]);
      assert s[..TokenLength(s)] == [s[0]] + s[1..][..TokenLength(s[1..])];
    }
  }

  /** `WsRunLength` stops exactly at the first character that is not whitespace. */
  lemma {:induction false} WsRunLengthSpec(s: string)
    ensures AllWs(s[..WsRunLength(s)])
    ensures WsRunLength(s) < |s| ==> !IsWs(s[WsRunLength(s)])
    decreases |s|
  {
    if s != [] && IsWs(s[0]) {
      WsRunLengthSpec(s[1..]);
      assert s[..WsRunLength(s)] == [s[0]] + s[1..][..WsRunLength(s[1..])];
    }
  }

  /**
   * `s.split(/\s+/)`: the pieces between maximal runs of whitespace, in order. Leading or
   * trailing whitespace gives an empty first or last piece; the empty string gives `[""]`.
   */
  function SplitWs(s: string): (parts: seq<string>)
    ensures |parts| >= 1
    decreases |s|
  {
    var n := TokenLength(s);
    if n == |s| then [s]
    else
      var m := WsRunLength(s[n..]);
      assert m >= 1 by { TokenLengthSpec(s); }
      [s[..n]] + SplitWs(s[n + m..])
  }

  /** Unfolding `SplitWs` once at its first whitespace run. */
  lemma SplitWsFound(s: string, n: nat, m: nat)
    requires n == TokenLength(s) && n < |s| && m == WsRunLength(s[n..])
    ensures SplitWs(s) == [s[..n]] + SplitWs(s[n + m..])
  {
  }

  /** No piece of a whitespace split contains whitespace. */
  lemma {:induction false} SplitWsPiecesNoWs(s: string)
    ensures forall i :: 0 <= i < |SplitWs(s)| ==> NoWs(SplitWs(s)[i])
    decreases |s|
  {
    var n := TokenLength(s);
    TokenLengthSpec(s);
    if n < |s| {
      var m := WsRunLength(s[n..]);
      SplitWsFound(s, n, m);
      SplitWsPiecesNoWs(s[n + m..]);
    }
  }

  function Concat(parts: seq<string>): string {
    if parts == [] then [] else parts[0] + Concat(parts[1..])
  }

  /** The text with its whitespace characters deleted. */
  function RemoveWs(s: string): string {
    if s == [] then [] else (if IsWs(s[0]) then [] else [s[0]]) + RemoveWs(s[1..])
  }

  lemma {:induction false} RemoveWsAppend(a: string, b: string)
    ensures RemoveWs(a + b) == RemoveWs(a) + RemoveWs(b)
    decreases |a|
  {
    if a == [] {
      assert a + b == b;
    } else {
      var x := if IsWs(a[0]) then [] else [a[0]];
      assert (a + b)[0] == a[0];
      assert (a + b)[1..] == a[1..] + b;
      RemoveWsAppend(a[1..], b);
      calc {
        RemoveWs(a + b);
        x + RemoveWs(a[1..] + b);
        x + (RemoveWs(a[1..]) + RemoveWs(b));
        (x + RemoveWs(a[1..])) + RemoveWs(b);
      }
    }
  }

  lemma {:induction false} RemoveWsOfAllWs(s: string)
    requires AllWs(s)
    ensures RemoveWs(s) == []
    decreases |s|
  {
    if s != [] {
      RemoveWsOfAllWs(s[1..]);
    }
  }

  lemma {:induction false} RemoveWsOfNoWs(s: string)
    requires NoWs(s)
    ensures RemoveWs(s) == s
    decreases |s|
  {
    if s != [] {
      RemoveWsOfNoWs(s[1..]);
    }
  }

  /** Splitting on whitespace keeps every other character, in order: only whitespace is dropped. */
  lemma {:induction false} SplitWsKeepsText(s: string)
    ensures Concat(SplitWs(s)) == RemoveWs(s)
    decreases |s|
  {
    var n := TokenLength(s);
    TokenLengthSpec(s);
    if n == |s| {
      assert s[..n] == s;
      RemoveWsOfNoWs(s);
    } else {
      var m := WsRunLength(s[n..]);
      WsRunLengthSpec(s[n..]);
      var tok, run, rest := s[..n], s[n..][..m], s[n + m..];
      SplitWsFound(s, n, m);
      SplitWsKeepsText(rest);
      ThreeParts(s, n, m);
      DropRun(tok, run, rest);
      ConcatCons(tok, SplitWs(rest));
    }
  }

  lemma ThreeParts(s: string, n: nat, m: nat)
    requires n + m <= |s|
    ensures s == s[..n] + (s[n..][..m] + s[n + m..])
  {
    assert s[n..] == s[n..][..m] + s[n + m..];
  }

  lemma ConcatCons(head: string, tail: seq<string>)
    ensures Concat([head] + tail) == head + Concat(tail)
  {
    assert ([head] + tail)[1..] == tail;
  }

  lemma DropRun(tok: string, run: string, rest: string)
    requires NoWs(tok) && AllWs(run)
    ensures RemoveWs(tok + (run + rest)) == tok + RemoveWs(rest)
  {
    calc {
      RemoveWs(tok + (run + rest));
      { RemoveWsAppend(tok, run + rest); }
      RemoveWs(tok) + RemoveWs(run + rest);
      { RemoveWsAppend(run, rest); }
      RemoveWs(tok) + (RemoveWs(run) + RemoveWs(rest));
      { RemoveWsOfNoWs(tok); RemoveWsOfAllWs(run); }
      tok + ([] + RemoveWs(rest));
      { assert [] + RemoveWs(rest) == RemoveWs(rest); }
      tok + RemoveWs(rest);
    }
  }

  /** Text with no whitespace at either edge splits into non-empty tokens only. */
  lemma {:induction false} SplitWsTokensNonEmpty(s: string)
    requires s != [] && NoEdgeWs(s)
    ensures forall i :: 0 <= i < |SplitWs(s)| ==> SplitWs(s)[i] != []
    decreases |s|
  {
    var n := TokenLength(s);
    TokenLengthSpec(s);
    if n < |s| {
      assert n > 0;
      var m := WsRunLength(s[n..]);
      WsRunLengthSpec(s[n..]);
      var rest := s[n + m..];
      assert rest != [] && rest[|rest| - 1] == s[|s| - 1];
      assert rest[0] == s[n..][m];
      SplitWsFound(s, n, m);
      SplitWsTokensNonEmpty(rest);
    }
  }

  // ---------------------------------------------------------------- where split(/\s+/) cuts

  /** The text with every maximal whitespace run replaced by a single space. */
  function CollapseWs(s: string): string
    decreases |s|
  {
    if s == [] then []
    else if IsWs(s[0]) then
      var m := WsRunLength(s);
      assert m >= 1;
      " " + CollapseWs(s[m..])
    else [s[0]] + CollapseWs(s[1..])
  }

  /** A whitespace-free prefix passes through collapsing unchanged. */
  lemma {:induction false} CollapseKeepsToken(tok: string, x: string)
    requires NoWs(tok)
    ensures CollapseWs(tok + x) == tok + CollapseWs(x)
    decreases |tok|
  {
    if tok == [] {
      assert tok + x == x;
    } else {
      assert (tok + x)[0] == tok[0] && (tok + x)[1..] == tok[1..] + x;
      CollapseKeepsToken(tok[1..], x);
    }
  }

  /**
   * The whitespace split cuts at the maximal whitespace runs and nowhere else: joining its pieces
   * with one space gives the text with each run collapsed to one space.
   */
  lemma {:induction false} SplitWsCollapses(s: string)
    ensures Join(SplitWs(s), " ") == CollapseWs(s)
    decreases |s|
  {
    var n := TokenLength(s);
    TokenLengthSpec(s);
    if n == |s| {
      assert SplitWs(s) == [s];
      assert s + [] == s;
      CollapseKeepsToken(s[..n], []);
      assert s[..n] == s;
    } else {
      var m := WsRunLength(s[n..]);
      var tok, rest := s[..n], s[n + m..];
      SplitWsFound(s, n, m);
      SplitWsCollapses(rest);
      JoinCons(tok, SplitWs(rest), " ");
      CollapseStep(s, n, m);
    }
  }

  /** Collapsing keeps the first token and turns the run after it into one space. */
  lemma CollapseStep(s: string, n: nat, m: nat)
    requires n == TokenLength(s) && n < |s| && m == WsRunLength(s[n..])
    ensures CollapseWs(s) == s[..n] + " " + CollapseWs(s[n + m..])
  {
    var t, u := s[..n], s[n..];
    TokenLengthSpec(s);
    SliceHalves(s, n);
    CollapseKeepsToken(t, u);
    assert CollapseWs(s) == t + CollapseWs(u);
    CollapseAtRun(u);
    assert u[m..] == s[n + m..];
    var c := CollapseWs(s[n + m..]);
    assert CollapseWs(u) == " " + c;
    ConcatAssoc(t, " ", c);
  }

  lemma ConcatAssoc(a: string, b: string, c: string)
    ensures a + (b + c) == a + b + c
  {
  }

  lemma SliceHalves(s: string, n: nat)
    requires n <= |s|
    ensures s == s[..n] + s[n..]
  {
  }

  lemma CollapseAtRun(u: string)
    requires u != [] && IsWs(u[0])
    ensures CollapseWs(u) == " " + CollapseWs(u[WsRunLength(u)..])
  {
  }

  /** The shape of a space-joined list of whitespace-free pieces. */
  lemma JoinSpaceShape(a: seq<string>)
    requires |a| >= 1 && forall i :: 0 <= i < |a| ==> NoWs(a[i])
    ensures |a| == 1 ==> Join(a, " ") == a[0] && NoWs(Join(a, " "))
    ensures |a| > 1 ==> |a[0]| < |Join(a, " ")| && IsWs(Join(a, " ")[|a[0]|])
                        && Join(a, " ")[..|a[0]|] == a[0] && Join(a, " ")[|a[0]| + 1..] == Join(a[1..], " ")
  {
    if |a| > 1 {
      var x := Join(a, " ");
      assert x == a[0] + " " + Join(a[1..], " ");
      assert x[..|a[0]|] == a[0];
      assert x[|a[0]| + 1..] == Join(a[1..], " ");
    }
  }

  /** Two whitespace-free prefixes each ending at a whitespace character end at the same place. */
  lemma FirstWsUnique(x: string, i: nat, j: nat)
    requires i < |x| && j < |x| && IsWs(x[i]) && IsWs(x[j]) && NoWs(x[..i]) && NoWs(x[..j])
    ensures i == j
  {
    assert forall k :: 0 <= k < i ==> x[..i][k] == x[k];
    assert forall k :: 0 <= k < j ==> x[..j][k] == x[k];
  }

  /**
   * Joining whitespace-free pieces with a space loses nothing: the pieces can be read back. With
   * `SplitWsCollapses` and `SplitWsPiecesNoWs` this fixes the whitespace split uniquely.
   */
  lemma {:induction false} JoinSpaceInjective(a: seq<string>, b: seq<string>)
    requires |a| >= 1 && forall i :: 0 <= i < |a| ==> NoWs(a[i])
    requires |b| >= 1 && forall i :: 0 <= i < |b| ==> NoWs(b[i])
    requires Join(a, " ") == Join(b, " ")
    ensures a == b
    decreases |a|
  {
    var x := Join(a, " ");
    JoinSpaceShape(a);
    JoinSpaceShape(b);
    if |a| > 1 && |b| > 1 {
      FirstWsUnique(x, |a[0]|, |b[0]|);
      JoinSpaceInjective(a[1..], b[1..]);
      assert a == [a[0]] + a[1..] && b == [b[0]] + b[1..];
    }
  }
}
