/** The directory part that `getOneDriveFilePath` of index.ts cuts out of a
    drive item's `parentReference.path` (for example
    `/drive/root:/Pictures/metro-evolved-pictures`) with `match(/.*\:(.*)/)`
    and the non-null assertion `matchGroups![1]`. */
module ParentPath {
  import opened RegexChars
  import opened Results

  /** `match` found nothing and returned `null`, so `matchGroups![1]` throws
      a TypeError: the `!` is a type assertion with no run-time effect, and
      indexing `null` throws. */
  datatype PathError = NoMatch

  /** First `:` at or after `j`, or `|s|` when there is none. */
  function ColonFrom(s: string, j: nat): (i: nat)
    requires j <= |s|
    ensures j <= i <= |s|
    ensures forall m :: j <= m < i ==> s[m] != ':'
    ensures i < |s| ==> s[i] == ':'
    decreases |s| - j
  {
    if j == |s| || s[j] == ':' then j else ColonFrom(s, j + 1)
  }

  /** End of the line holding position `j`: the first line terminator at or
      after `j`, or `|s|`. */
  function LineEnd(s: string, j: nat): (e: nat)
    requires j <= |s|
    ensures j <= e <= |s|
    ensures NoLineTerminator(s[j..e])
    ensures e < |s| ==> IsLineTerminator(s[e])
    decreases |s| - j
  {
    if j == |s| || IsLineTerminator(s[j]) then j
    else
      var e := LineEnd(s, j + 1);
      assert s[j..e] == [s[j]] + s[j + 1..e];
      e
  }

  /** Last `:` in `s[lo..hi]`, given that `s[lo]` is one. */
  function LastColonIn(s: string, lo: nat, hi: nat): (k: nat)
    requires lo < hi <= |s| && s[lo] == ':'
    ensures lo <= k < hi && s[k] == ':'
    ensures forall m :: k < m < hi ==> s[m] != ':'
    decreases hi
  {
    if s[hi - 1] == ':' then hi - 1 else LastColonIn(s, lo, hi - 1)
  }

  /** Group 1 of `/.*\:(.*)/` on `path`. The leftmost match starts on the
      first line that holds a `:`, since `.` never crosses a line
      terminator; the greedy `.*` then runs to the last `:` of that line
      and the group takes the rest of the line. With no `:` at all there
      is no match. */
  function ParentDirectory(path: string): (r: Result<string, PathError>)
    ensures r.Err? <==> ':' !in path
    ensures r.Ok? ==> ':' !in r.value && NoLineTerminator(r.value)
  {
    var i := ColonFrom(path, 0);
    if i == |path| then Err(NoMatch)
    else
      var e := LineEnd(path, i);
      var k := LastColonIn(path, i, e);
      assert NoLineTerminator(path[k + 1..e]) by {
        assert forall m :: k + 1 <= m < e ==> path[m] == path[i..e][m - i];
      }
      Ok(path[k + 1..e])
  }

  /** `d` follows the `:` at `k` and reaches the end of its line, and no
      earlier `:` sits on a previous line: `k` is on the first line that
      holds a `:`. */
  ghost predicate SplitAtColon(path: string, k: nat, d: string) {
    && k < |path| && path[k] == ':'
    && k + 1 + |d| <= |path|
    && path[k + 1..k + 1 + |d|] == d
    && ':' !in d && NoLineTerminator(d)
    && (k + 1 + |d| == |path| || IsLineTerminator(path[k + 1 + |d|]))
    && forall j :: 0 <= j < k && path[j] == ':' ==> NoLineTerminator(path[j..k])
  }

  /** The directory part is what the regex captures: the text after the
      last `:` of the first line holding a `:`, up to the end of that line. */
  lemma ParentDirectoryIsRegexGroup(path: string)
    requires ':' in path
    ensures exists k :: SplitAtColon(path, k, ParentDirectory(path).value)
  {
    var i := ColonFrom(path, 0);
    var e := LineEnd(path, i);
    var k := LastColonIn(path, i, e);
    var d := ParentDirectory(path).value;
    assert d == path[k + 1..e];
    forall j | 0 <= j < k && path[j] == ':'
      ensures NoLineTerminator(path[j..k])
    {
      assert i <= j;
      forall m | 0 <= m < k - j
        ensures !IsLineTerminator(path[j..k][m])
      {
        assert path[j..k][m] == path[i..e][j - i + m];
      }
    }
    assert SplitAtColon(path, k, d);
  }

  /** Conversely, any split the regex could report is the one
      `ParentDirectory` returns. */
  lemma RegexGroupIsParentDirectory(path: string, k: nat, d: string)
    requires SplitAtColon(path, k, d)
    ensures ParentDirectory(path) == Ok(d)
  {
    var n := k + 1 + |d|;
    var i := ColonFrom(path, 0);
    assert NoLineTerminator(path[i..k]);
    forall m | i <= m < n
      ensures !IsLineTerminator(path[m])
    {
      if m < k {
        assert path[m] == path[i..k][m - i];
      } else if m > k {
        assert path[m] == d[m - k - 1];
      }
    }
    LineEndUnique(path, i, n);
    forall m | k < m < n
      ensures path[m] != ':'
    {
      assert path[m] == d[m - k - 1];
    }
    LastColonUnique(path, i, n, k);
  }

  /** `LineEnd` is the only end of a line: no terminator before it, one
      (or the end of `s`) at it. */
  lemma LineEndUnique(s: string, j: nat, n: nat)
    requires j <= n <= |s|
    requires forall m :: j <= m < n ==> !IsLineTerminator(s[m])
    requires n == |s| || IsLineTerminator(s[n])
    ensures LineEnd(s, j) == n
  {
    var e := LineEnd(s, j);
    forall m | j <= m < e
      ensures !IsLineTerminator(s[m])
    {
      assert s[m] == s[j..e][m - j];
    }
  }

  /** `LastColonIn` is the only `:` with none after it before `hi`. */
  lemma LastColonUnique(s: string, lo: nat, hi: nat, k: nat)
    requires lo <= k < hi <= |s| && s[lo] == ':' && s[k] == ':'
    requires forall m :: k < m < hi ==> s[m] != ':'
    ensures LastColonIn(s, lo, hi) == k
  {
  }

  /** A parent path without line breaks (the form the drive returns) splits
      at its last `:`: the directory part is the whole suffix after it. */
  lemma SingleLineSplitsAtLastColon(path: string)
    requires ':' in path && NoLineTerminator(path)
    ensures var d := ParentDirectory(path).value;
      |d| < |path| && path[|path| - |d| - 1] == ':' && path[|path| - |d|..] == d
  {
    var i := ColonFrom(path, 0);
    var e := LineEnd(path, i);
    assert e == |path|;
  }

  /** Equivalently: on one line, `a + ":" + b` with no `:` in `b` yields
      exactly `b`, whatever `a` holds. */
  lemma SplitsAtLastColon(a: string, b: string)
    requires NoLineTerminator(a) && NoLineTerminator(b) && ':' !in b
    ensures ParentDirectory(a + ":" + b) == Ok(b)
  {
    var path := a + ":" + b;
    assert path[|a|] == ':';
    assert NoLineTerminator(path) by {
      forall m | 0 <= m < |path|
        ensures !IsLineTerminator(path[m])
      {
        if m < |a| {
          assert path[m] == a[m];
        } else if m > |a| {
          assert path[m] == b[m - |a| - 1];
        }
      }
    }
    SingleLineSplitsAtLastColon(path);
    var d := ParentDirectory(path).value;
    assert path[|a| + 1..] == b;
  }

  /** The example of the source comment. */
  lemma PicturesExample()
    ensures ParentDirectory("/drive/root:/Pictures/metro-evolved-pictures")
         == Ok("/Pictures/metro-evolved-pictures")
  {
    ExampleRootIsOneLine();
    ExampleDirectoryIsOneLine();
    ExampleJoin();
    SplitsAtLastColon("/drive/root", "/Pictures/metro-evolved-pictures");
  }

  // The example's literal facts are proved one per lemma: the solver
  // handles each cheaply but not all of them in one proof.

  lemma ExampleRootIsOneLine()
    ensures NoLineTerminator("/drive/root")
  {
  }

  lemma ExampleDirectoryIsOneLine()
    ensures NoLineTerminator("/Pictures/metro-evolved-pictures")
    ensures ':' !in "/Pictures/metro-evolved-pictures"
  {
  }

  lemma ExampleJoin()
    ensures "/drive/root" + ":" + "/Pictures/metro-evolved-pictures"
         == "/drive/root:/Pictures/metro-evolved-pictures"
  {
  }
}
