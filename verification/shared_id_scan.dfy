/** The text logic of `findFileSharedItemIds` in index.ts: every match of the
    global pattern `/\:\/\/1drv.ms\/i\/([^\?]+)/g`, as enumerated by
    `String.prototype.matchAll`, contributes its capture group, in order and
    with duplicates kept. */
module SharedIdScan {
  import opened RegexChars

  /** `://1drv`, the literal text before the unescaped `.` */
  const LinkHead: string := "://1drv"
  /** `ms/i/`, the literal text after the unescaped `.` */
  const LinkTail: string := "ms/i/"
  /** Position of the unescaped `.` within the prefix: `|LinkHead|`, as
      `PrefixLayout` checks. */
  const DotOffset: nat := 7
  /** Length of the whole prefix `://1drv` + one character + `ms/i/`:
      `DotOffset + 1 + |LinkTail|`, as `PrefixLayout` checks. */
  const PrefixLength: nat := 13

  /** The prefix offsets are the lengths of its literal parts. */
  lemma PrefixLayout()
    ensures DotOffset == |LinkHead|
    ensures PrefixLength == DotOffset + 1 + |LinkTail|
  {
  }

  /** The literal `lit` occurs in `s` at position `i`. */
  predicate LiteralAt(s: string, i: nat, lit: string)
    decreases lit
  {
    if |lit| == 0 then i <= |s|
    else i < |s| && s[i] == lit[0] && LiteralAt(s, i + 1, lit[1..])
  }

  /** `LiteralAt` is the slice comparison. */
  lemma {:induction false} LiteralAtIsSlice(s: string, i: nat, lit: string)
    ensures LiteralAt(s, i, lit) <==> i + |lit| <= |s| && s[i..i + |lit|] == lit
    decreases lit
  {
    if |lit| > 0 {
      LiteralAtIsSlice(s, i + 1, lit[1..]);
      if i + |lit| <= |s| {
        var w := s[i..i + |lit|];
        assert w[0] == s[i];
        assert w[1..] == s[i + 1..i + 1 + |lit[1..]|];
        if w == lit {
          assert s[i] == lit[0];
        }
        if s[i] == lit[0] && w[1..] == lit[1..] {
          assert w == [w[0]] + w[1..];
          assert lit == [lit[0]] + lit[1..];
        }
      }
    }
  }

  /** The prefix of the pattern matches `s` at position `i`: `://1drv`,
      one character the unescaped `.` accepts, then `ms/i/`. */
  predicate PrefixAt(s: string, i: nat) {
    && i + PrefixLength <= |s|
    && LiteralAt(s, i, LinkHead)
    && MatchesSingleDot(s[i + DotOffset])
    && LiteralAt(s, i + DotOffset + 1, LinkTail)
  }

  /** `PrefixAt` compares the text with the literal parts of the pattern. */
  lemma PrefixAtIsSlice(s: string, i: nat)
    ensures PrefixAt(s, i) <==>
      && i + PrefixLength <= |s|
      && s[i..i + DotOffset] == LinkHead
      && MatchesSingleDot(s[i + DotOffset])
      && s[i + DotOffset + 1..i + PrefixLength] == LinkTail
  {
    LiteralAtIsSlice(s, i, LinkHead);
    LiteralAtIsSlice(s, i + DotOffset + 1, LinkTail);
  }

  /** The whole pattern matches at `i`: the prefix, then at least one
      character of the group `[^?]+`, so the greedy run after the prefix is
      not empty. */
  predicate MatchAt(s: string, i: nat)
    ensures MatchAt(s, i) <==> PrefixAt(s, i) && RunEnd(s, i + PrefixLength) > i + PrefixLength
  {
    PrefixAt(s, i) && i + PrefixLength < |s| && s[i + PrefixLength] != '?'
  }

  /** No character of `s[lo..hi]` is a `?`. */
  predicate NoQuestionMarkIn(s: string, lo: nat, hi: nat)
    requires lo <= hi <= |s|
  {
    forall i :: lo <= i < hi ==> s[i] != '?'
  }

  /** Where the greedy run `[^?]*` starting at `j` stops: at the first `?`
      at or after `j`, or at the end of `s`. */
  function RunEnd(s: string, j: nat): (e: nat)
    requires j <= |s|
    ensures j <= e <= |s|
    decreases |s| - j
  {
    if j == |s| || s[j] == '?' then j else RunEnd(s, j + 1)
  }

  /** The run `[^?]*` from `j` is maximal: no `?` inside, and `?` or the end
      of `s` right after it. */
  lemma {:induction false} RunEndIsFirstQuestionMark(s: string, j: nat)
    requires j <= |s|
    ensures NoQuestionMarkIn(s, j, RunEnd(s, j))
    ensures RunEnd(s, j) == |s| || s[RunEnd(s, j)] == '?'
    decreases |s| - j
  {
    if j < |s| && s[j] != '?' {
      RunEndIsFirstQuestionMark(s, j + 1);
    }
  }

  /** Position just past the match that starts at `i`. */
  function MatchEnd(s: string, i: nat): (e: nat)
    requires MatchAt(s, i)
    ensures i + PrefixLength < e <= |s|
  {
    RunEnd(s, i + PrefixLength)
  }

  /** The capture group of the match that starts at `i`. */
  function Capture(s: string, i: nat): string
    requires MatchAt(s, i)
  {
    s[i + PrefixLength..MatchEnd(s, i)]
  }

  /** No match of the pattern starts in `[lo, hi)`. */
  predicate NoMatchIn(s: string, lo: nat, hi: nat) {
    forall j :: lo <= j < hi ==> !MatchAt(s, j)
  }

  /** Start positions of the matches `matchAll` enumerates when it begins
      searching at `from`: the leftmost match, then the next search resumes
      where that match ended. */
  function MatchStarts(s: string, from: nat): (ps: seq<nat>)
    requires from <= |s|
    ensures forall k :: 0 <= k < |ps| ==> from <= ps[k] < |s| && MatchAt(s, ps[k])
    decreases |s| - from
  {
    if from == |s| then []
    else if MatchAt(s, from) then [from] + MatchStarts(s, MatchEnd(s, from))
    else MatchStarts(s, from + 1)
  }

  /** `ps` are exactly the start positions of the leftmost, non-overlapping
      matches in `s[from..]`: the first is the leftmost match at or after
      `from`, the search for the next resumes where it ended, and when none
      is left there is no match up to the end of `s`. */
  ghost predicate IsMatchAllPositions(s: string, from: nat, ps: seq<nat>)
    decreases |ps|
  {
    if |ps| == 0 then NoMatchIn(s, from, |s|)
    else
      && from <= ps[0] < |s|
      && MatchAt(s, ps[0])
      && NoMatchIn(s, from, ps[0])
      && IsMatchAllPositions(s, MatchEnd(s, ps[0]), ps[1..])
  }

  /** The captures of the matches starting at `ps`, in order. */
  function Captures(s: string, ps: seq<nat>): (ids: seq<string>)
    requires forall k :: 0 <= k < |ps| ==> MatchAt(s, ps[k])
    ensures |ids| == |ps|
  {
    seq(|ps|, k requires 0 <= k < |ps| => Capture(s, ps[k]))
  }

  /** The ids `findFileSharedItemIds` collects from a file's content. */
  function FindFileSharedItemIds(content: string): (ids: seq<string>)
    ensures forall id :: id in ids ==> |id| > 0 && '?' !in id
  {
    var ps := MatchStarts(content, 0);
    var ids := Captures(content, ps);
    assert forall k :: 0 <= k < |ids| ==> |ids[k]| > 0 && '?' !in ids[k] by {
      forall k | 0 <= k < |ids|
        ensures |ids[k]| > 0 && '?' !in ids[k]
      {
        CaptureShape(content, ps[k]);
      }
    }
    ids
  }

  /** A capture is non-empty and free of `?`. */
  lemma CaptureShape(s: string, i: nat)
    requires MatchAt(s, i)
    ensures |Capture(s, i)| > 0 && '?' !in Capture(s, i)
  {
    var c := Capture(s, i);
    RunEndIsFirstQuestionMark(s, i + PrefixLength);
    forall m | 0 <= m < |c|
      ensures c[m] != '?'
    {
      assert c[m] == s[i + PrefixLength + m];
    }
  }

  /** `matchAll` enumerates exactly the leftmost non-overlapping matches:
      `MatchStarts` meets `IsMatchAllPositions`, and it is the only position
      sequence that does. */
  lemma MatchStartsCharacterised(s: string, from: nat, ps: seq<nat>)
    requires from <= |s|
    ensures MatchStarts(s, from) == ps <==> IsMatchAllPositions(s, from, ps)
  {
    MatchStartsAreMatchAll(s, from);
    if IsMatchAllPositions(s, from, ps) {
      MatchAllPositionsUnique(s, from, ps);
    }
  }

  lemma {:induction false} MatchStartsAreMatchAll(s: string, from: nat)
    requires from <= |s|
    ensures IsMatchAllPositions(s, from, MatchStarts(s, from))
    decreases |s| - from
  {
    if from == |s| {
    } else if MatchAt(s, from) {
      MatchStartsAreMatchAll(s, MatchEnd(s, from));
      PrependMatch(s, from, MatchStarts(s, MatchEnd(s, from)));
    } else {
      MatchStartsAreMatchAll(s, from + 1);
      ExtendNonMatch(s, from, MatchStarts(s, from + 1));
    }
  }

  /** A match at the start of the search comes first, then the search
      resumes at its end. */
  lemma PrependMatch(s: string, from: nat, rest: seq<nat>)
    requires from < |s| && MatchAt(s, from)
    requires IsMatchAllPositions(s, MatchEnd(s, from), rest)
    ensures IsMatchAllPositions(s, from, [from] + rest)
  {
    assert ([from] + rest)[1..] == rest;
  }

  /** A search may start one position earlier where no match starts. */
  lemma ExtendNonMatch(s: string, from: nat, ps: seq<nat>)
    requires from < |s| && !MatchAt(s, from)
    requires IsMatchAllPositions(s, from + 1, ps)
    ensures IsMatchAllPositions(s, from, ps)
  {
  }

  lemma {:induction false} MatchAllPositionsUnique(s: string, from: nat, ps: seq<nat>)
    requires from <= |s|
    requires IsMatchAllPositions(s, from, ps)
    ensures ps == MatchStarts(s, from)
    decreases |s| - from
  {
    if from == |s| {
    } else if MatchAt(s, from) {
      FirstMatchIsLeftmost(s, from, ps);
      MatchAllPositionsUnique(s, MatchEnd(s, from), ps[1..]);
      assert ps == [from] + ps[1..];
    } else {
      SkipNonMatch(s, from, ps);
      MatchAllPositionsUnique(s, from + 1, ps);
    }
  }

  /** A search that starts on a match reports that match first. */
  lemma FirstMatchIsLeftmost(s: string, from: nat, ps: seq<nat>)
    requires from < |s| && MatchAt(s, from)
    requires IsMatchAllPositions(s, from, ps)
    ensures |ps| > 0 && ps[0] == from
  {
    assert |ps| > 0 by { assert !NoMatchIn(s, from, |s|); }
    assert !NoMatchIn(s, from, ps[0] + 1);
  }

  /** A position where no match starts can be skipped over. */
  lemma SkipNonMatch(s: string, from: nat, ps: seq<nat>)
    requires from < |s| && !MatchAt(s, from)
    requires IsMatchAllPositions(s, from, ps)
    ensures IsMatchAllPositions(s, from + 1, ps)
  {
    if |ps| > 0 {
      assert ps[0] != from;
    }
  }

  /** `RunEnd` is the only position that ends a maximal `[^?]*` run. */
  lemma RunEndUnique(s: string, j: nat, e: nat)
    requires j <= e <= |s|
    requires NoQuestionMarkIn(s, j, e)
    requires e == |s| || s[e] == '?'
    ensures RunEnd(s, j) == e
  {
    RunEndIsFirstQuestionMark(s, j);
  }

  /** `id` is captured maximally right after a prefix at `p`: the prefix,
      then `id`, then a `?` or the end of `s`. */
  ghost predicate MaximalCaptureAt(s: string, p: nat, id: string) {
    && PrefixAt(s, p)
    && p + PrefixLength + |id| <= |s|
    && s[p + PrefixLength..p + PrefixLength + |id|] == id
    && (p + PrefixLength + |id| == |s| || s[p + PrefixLength + |id|] == '?')
  }

  /** The capture of every match follows its prefix and is maximal. */
  lemma CaptureIsMaximal(s: string, i: nat)
    requires MatchAt(s, i)
    ensures MaximalCaptureAt(s, i, Capture(s, i))
  {
    RunEndIsFirstQuestionMark(s, i + PrefixLength);
  }

  /** Conversely, a prefix followed by a maximal non-empty `?`-free run is a
      match capturing exactly that run. */
  lemma MaximalCaptureIsMatch(s: string, p: nat, id: string)
    requires MaximalCaptureAt(s, p, id)
    requires |id| > 0 && '?' !in id
    ensures MatchAt(s, p) && Capture(s, p) == id
    ensures MatchEnd(s, p) == p + PrefixLength + |id|
  {
    var e := p + PrefixLength + |id|;
    assert s[p + PrefixLength] == id[0];
    forall m | p + PrefixLength <= m < e
      ensures s[m] != '?'
    {
      assert s[m] == id[m - p - PrefixLength];
    }
    RunEndUnique(s, p + PrefixLength, e);
  }

  /** Every extracted id sits in the content right after a prefix
      `://1drv` + one character + `ms/i/`, and runs up to a `?` or the end. */
  lemma IdsFollowPrefixMaximally(content: string)
    ensures forall id :: id in FindFileSharedItemIds(content) ==>
              exists p :: MaximalCaptureAt(content, p, id)
  {
    var ps := MatchStarts(content, 0);
    var ids := FindFileSharedItemIds(content);
    forall id | id in ids
      ensures exists p :: MaximalCaptureAt(content, p, id)
    {
      var k :| 0 <= k < |ids| && ids[k] == id;
      CaptureIsMaximal(content, ps[k]);
    }
  }

  /** No match anywhere in the content is exactly when no id comes out. */
  lemma NoIdsIffNoMatch(content: string)
    ensures FindFileSharedItemIds(content) == [] <==> NoMatchIn(content, 0, |content|)
  {
    MatchStartsAreMatchAll(content, 0);
  }

  /** Content without any prefix `://1drv` + one character + `ms/i/`
      yields no id. */
  lemma NoPrefixNoIds(content: string)
    requires forall i :: 0 <= i < |content| ==> !PrefixAt(content, i)
    ensures FindFileSharedItemIds(content) == []
  {
    NoIdsIffNoMatch(content);
  }

  /** Each match in `ps` starts at or after the end of every earlier one. */
  ghost predicate InOrderWithoutOverlap(s: string, ps: seq<nat>)
    requires forall k :: 0 <= k < |ps| ==> MatchAt(s, ps[k])
  {
    forall i, j :: 0 <= i < j < |ps| ==> MatchEnd(s, ps[i]) <= ps[j]
  }

  /** Matches come out in order of occurrence and never overlap: every later
      match starts at or after the end of an earlier one. */
  lemma {:induction false} MatchStartsOrdered(s: string, from: nat)
    requires from <= |s|
    ensures InOrderWithoutOverlap(s, MatchStarts(s, from))
    decreases |s| - from
  {
    var ps := MatchStarts(s, from);
    if from == |s| {
    } else if MatchAt(s, from) {
      var e := MatchEnd(s, from);
      MatchStartsOrdered(s, e);
      var rest := MatchStarts(s, e);
      OrderedCons(s, from, rest);
      assert ps == [from] + rest;
    } else {
      MatchStartsOrdered(s, from + 1);
      assert ps == MatchStarts(s, from + 1);
    }
  }

  lemma OrderedCons(s: string, p: nat, rest: seq<nat>)
    requires MatchAt(s, p)
    requires forall k :: 0 <= k < |rest| ==> MatchEnd(s, p) <= rest[k] && MatchAt(s, rest[k])
    requires InOrderWithoutOverlap(s, rest)
    ensures InOrderWithoutOverlap(s, [p] + rest)
  {
    var ps := [p] + rest;
    forall i, j | 0 <= i < j < |ps|
      ensures MatchEnd(s, ps[i]) <= ps[j]
    {
      assert ps[j] == rest[j - 1];
      if i > 0 {
        assert ps[i] == rest[i - 1];
      }
    }
  }

  /** A later link that starts inside a match (before the next `?`) is
      swallowed by the greedy capture and yields no match of its own. */
  lemma AbsorbedLinkYieldsNoMatch(s: string, p: nat, q: nat)
    requires p in MatchStarts(s, 0)
    requires p < q < MatchEnd(s, p)
    ensures q !in MatchStarts(s, 0)
  {
    MatchStartsOrdered(s, 0);
  }

  /** The link prefix with the usual `.` between `1drv` and `ms`. */
  const Link: string := "://1drv.ms/i/"

  /** A link prefix whose unescaped `.` position holds `c`. */
  function PrefixWith(c: char): (t: string)
    ensures |t| == PrefixLength
  {
    LinkHead + [c] + LinkTail
  }

  /** A link `PrefixWith(c) + id + "?"` written at position `p` of `s` is a
      match there, capturing `id`. */
  lemma LinkOccurrence(s: string, p: nat, c: char, id: string)
    requires MatchesSingleDot(c)
    requires |id| > 0 && '?' !in id
    requires p + PrefixLength + |id| < |s|
    requires s[p..p + PrefixLength + |id| + 1] == PrefixWith(c) + id + "?"
    ensures MatchAt(s, p) && Capture(s, p) == id
    ensures MatchEnd(s, p) == p + PrefixLength + |id|
  {
    var n := PrefixLength + |id| + 1;
    var w := s[p..p + n];
    assert w[..PrefixLength] == PrefixWith(c);
    assert w[PrefixLength..PrefixLength + |id|] == id;
    SliceOfSlice(s, p, p + n, 0, PrefixLength);
    SliceOfSlice(s, p, p + n, PrefixLength, PrefixLength + |id|);
    PrefixWithIsPrefix(s, p, c);
    assert s[p + PrefixLength + |id|] == w[PrefixLength + |id|] == '?';
    MaximalCaptureIsMatch(s, p, id);
  }

  /** `PrefixWith(c)` written at `p` is the pattern's prefix when `.`
      accepts `c`. */
  lemma PrefixWithIsPrefix(s: string, p: nat, c: char)
    requires MatchesSingleDot(c)
    requires p + PrefixLength <= |s| && s[p..p + PrefixLength] == PrefixWith(c)
    ensures PrefixAt(s, p)
  {
    var t := PrefixWith(c);
    assert t[..DotOffset] == LinkHead;
    assert t[DotOffset + 1..] == LinkTail;
    SliceOfSlice(s, p, p + PrefixLength, 0, DotOffset);
    SliceOfSlice(s, p, p + PrefixLength, DotOffset + 1, PrefixLength);
    assert s[p + DotOffset] == t[DotOffset] == c;
    LiteralAtIsSlice(s, p, LinkHead);
    LiteralAtIsSlice(s, p + DotOffset + 1, LinkTail);
  }

  lemma SliceOfSlice(s: string, lo: nat, hi: nat, a: nat, b: nat)
    requires lo <= hi <= |s| && a <= b <= hi - lo
    ensures s[lo..hi][a..b] == s[lo + a..lo + b]
  {
    var u := s[lo..hi][a..b];
    assert forall i :: 0 <= i < b - a ==> u[i] == s[lo + a + i];
  }

  /** The usual link prefix is the pattern's prefix with `.` in the
      wildcard position. */
  lemma DotLink()
    ensures PrefixWith('.') == Link
  {
  }

  /** A single link yields its id whatever single character stands between
      `1drv` and `ms`, as long as `.` accepts it. */
  lemma SingleLink(c: char, id: string)
    requires MatchesSingleDot(c)
    requires |id| > 0 && '?' !in id
    ensures FindFileSharedItemIds(PrefixWith(c) + id + "?") == [id]
  {
    var s := PrefixWith(c) + id + "?";
    assert s[0..|s|] == s;
    LoneLink(s, 0, c, id);
  }

  /** A link embedded in text with no other `:` yields exactly its id, as
      in the `<img src="https://1drv.ms/i/...?embed=1" />` markup the tool
      reads. */
  lemma EmbeddedLink(pre: string, id: string, post: string)
    requires ':' !in pre && ':' !in post
    requires |id| > 0 && '?' !in id
    ensures FindFileSharedItemIds(pre + Link + id + "?" + post) == [id]
  {
    var s := pre + Link + id + "?" + post;
    EmbeddedLinkLayout(pre, id, post);
    DotLink();
    LoneLink(s, |pre|, '.', id);
  }

  /** Where the parts of `pre + Link + id + "?" + post` sit. */
  lemma EmbeddedLinkLayout(pre: string, id: string, post: string)
    requires ':' !in pre && ':' !in post
    ensures var s := pre + Link + id + "?" + post;
            var e := |pre| + PrefixLength + |id|;
            && e < |s|
            && s[|pre|..e + 1] == Link + id + "?"
            && (forall j :: 0 <= j < |pre| ==> s[j] != ':')
            && (forall j :: e < j < |s| ==> s[j] != ':')
  {
    var s := pre + Link + id + "?" + post;
    var e := |pre| + PrefixLength + |id|;
    assert forall j :: 0 <= j < |pre| ==> s[j] == pre[j];
    assert forall j :: e < j < |s| ==> s[j] == post[j - e - 1];
  }

  /** A link `PrefixWith(c) + id + "?"` at `p`, with no `:` before it or
      after its `?`, is the only match in `s`. */
  lemma LoneLink(s: string, p: nat, c: char, id: string)
    requires MatchesSingleDot(c)
    requires |id| > 0 && '?' !in id
    requires p + PrefixLength + |id| < |s|
    requires s[p..p + PrefixLength + |id| + 1] == PrefixWith(c) + id + "?"
    requires forall j :: 0 <= j < p ==> s[j] != ':'
    requires forall j :: p + PrefixLength + |id| < j < |s| ==> s[j] != ':'
    ensures FindFileSharedItemIds(s) == [id]
  {
    var e := p + PrefixLength + |id|;
    LinkOccurrence(s, p, c, id);
    EmbeddedLinkAlone(s, p, e);
    assert [p][1..] == [];
    assert IsMatchAllPositions(s, 0, [p]);
    MatchAllPositionsUnique(s, 0, [p]);
  }

  /** No match starts before `p` or after `e` when those parts hold no `:`. */
  lemma EmbeddedLinkAlone(s: string, p: nat, e: nat)
    requires p <= e < |s| && s[e] == '?'
    requires forall j :: 0 <= j < p ==> s[j] != ':'
    requires forall j :: e < j < |s| ==> s[j] != ':'
    ensures NoMatchIn(s, 0, p) && NoMatchIn(s, e, |s|)
  {
    forall j | 0 <= j < p || e <= j < |s|
      ensures !LiteralAt(s, j, LinkHead)
    {
    }
  }

  /** The sample element quoted in the source comment yields the id
      `s!AmslmcZf6z3Lg98-IHg6iib_9ykDOw`. */
  lemma SampleElement()
    ensures FindFileSharedItemIds(
              "<img src=\"https" + Link + "s!AmslmcZf6z3Lg98-IHg6iib_9ykDOw" + "?"
              + ("embed=1&width=981&height=740\"" + " width=\"981\" height=\"740\" />"))
         == ["s!AmslmcZf6z3Lg98-IHg6iib_9ykDOw"]
  {
    SampleParts();
    EmbeddedLink("<img src=\"https", "s!AmslmcZf6z3Lg98-IHg6iib_9ykDOw",
                 "embed=1&width=981&height=740\"" + " width=\"981\" height=\"740\" />");
  }

  lemma SampleParts()
    ensures ':' !in "<img src=\"https"
    ensures ':' !in "embed=1&width=981&height=740\"" + " width=\"981\" height=\"740\" />"
    ensures '?' !in "s!AmslmcZf6z3Lg98-IHg6iib_9ykDOw"
  {
    SampleHead();
    SampleQuery();
    SampleAttributes();
    SampleId();
  }

  // The facts about the sample's literal pieces are proved one per lemma:
  // the solver handles each piece cheaply but not all of them at once.

  lemma SampleHead()
    ensures ':' !in "<img src=\"https"
  {
  }

  lemma SampleQuery()
    ensures ':' !in "embed=1&width=981&height=740\""
  {
  }

  lemma SampleAttributes()
    ensures ':' !in " width=\"981\" height=\"740\" />"
  {
  }

  lemma SampleId()
    ensures '?' !in "s!AmslmcZf6z3Lg98-IHg6iib_9ykDOw"
  {
  }

  /** A line terminator (or a character outside the Basic Multilingual Plane)
      where the pattern has its unescaped `.` breaks the link: no id. */
  lemma BrokenWildcardYieldsNothing(c: char, id: string)
    requires !MatchesSingleDot(c)
    requires ':' !in id
    ensures FindFileSharedItemIds(PrefixWith(c) + id + "?") == []
  {
    var s := PrefixWith(c) + id + "?";
    forall j | 0 < j < |s|
      ensures s[j] != ':'
    {
      if j < PrefixLength {
        assert s[j] == PrefixWith(c)[j];
      } else if j < PrefixLength + |id| {
        assert s[j] == id[j - PrefixLength];
      }
    }
    assert s[DotOffset] == c;
    forall j | 0 <= j < |s|
      ensures !MatchAt(s, j)
    {
      if j > 0 {
        assert !LiteralAt(s, j, LinkHead);
      }
    }
    NoIdsIffNoMatch(s);
  }

  /** A later link before the next `?` is absorbed into the id of the
      earlier one: `://1drv.ms/i/a ://1drv.ms/i/b?` gives the single id
      `a ://1drv.ms/i/b`. */
  lemma GreedyCaptureAbsorbsLaterLink(a: string, b: string)
    requires '?' !in a && '?' !in b
    ensures FindFileSharedItemIds(Link + a + Link + b + "?") == [a + Link + b]
  {
    var id := a + Link + b;
    DotLink();
    assert Link + a + Link + b + "?" == PrefixWith('.') + id + "?";
    assert '?' !in Link;
    assert '?' !in id;
    SingleLink('.', id);
  }

  /** The same link twice gives the same id twice: duplicates are kept. */
  lemma DuplicatesRetained(id: string)
    requires |id| > 0 && '?' !in id
    ensures var l := Link + id + "?"; FindFileSharedItemIds(l + l) == [id, id]
  {
    var l := Link + id + "?";
    DoubledLinkFacts(id, l);
    BackToBackMatches(l + l, |l|, PrefixLength + |id|);
    MatchAllPositionsUnique(l + l, 0, [0, |l|]);
    assert Captures(l + l, [0, |l|]) == [id, id];
  }

  /** Where the two matches of a doubled link start and end. */
  lemma DoubledLinkFacts(id: string, l: string)
    requires |id| > 0 && '?' !in id
    requires l == Link + id + "?"
    ensures |l| == PrefixLength + |id| + 1
    ensures MatchAt(l + l, 0) && Capture(l + l, 0) == id
    ensures MatchAt(l + l, |l|) && Capture(l + l, |l|) == id
    ensures MatchEnd(l + l, 0) == PrefixLength + |id|
    ensures MatchEnd(l + l, |l|) == |l| + PrefixLength + |id|
    ensures (l + l)[PrefixLength + |id|] == '?'
    ensures (l + l)[|l| + PrefixLength + |id|] == '?'
  {
    var s := l + l;
    DotLink();
    assert s[0..|l|] == l;
    LinkOccurrence(s, 0, '.', id);
    assert s[|l|..|l| + |l|] == l;
    LinkOccurrence(s, |l|, '.', id);
  }

  /** Two matches, the second starting right after the `?` that ends the
      first, and a final `?`: `matchAll` finds exactly these two. */
  lemma BackToBackMatches(s: string, n: nat, e: nat)
    requires e + 1 == n && n + e + 1 == |s|
    requires MatchAt(s, 0) && MatchAt(s, n)
    requires MatchEnd(s, 0) == e && MatchEnd(s, n) == n + e
    requires s[e] == '?' && s[n + e] == '?'
    ensures IsMatchAllPositions(s, 0, [0, n])
  {
    SecondLinkFollows(s, n, e);
    assert IsMatchAllPositions(s, n + e, []);
    assert [n][1..] == [];
    assert IsMatchAllPositions(s, e, [n]);
    assert [0, n][1..] == [n];
  }

  /** Only the `?` closing the first link lies between it and the second,
      and only the final `?` lies after the second. */
  lemma SecondLinkFollows(s: string, n: nat, e: nat)
    requires e + 1 == n && n + e + 1 == |s|
    requires s[e] == '?' && s[n + e] == '?'
    ensures NoMatchIn(s, e, n) && NoMatchIn(s, n + e, |s|)
  {
    assert !LiteralAt(s, e, LinkHead);
  }

  /** The captures of a match followed by further matches. */
  lemma CapturesCons(s: string, p: nat, rest: seq<nat>)
    requires MatchAt(s, p)
    requires forall k :: 0 <= k < |rest| ==> MatchAt(s, rest[k])
    ensures Captures(s, [p] + rest) == [Capture(s, p)] + Captures(s, rest)
  {
    var ps := [p] + rest;
    var l := Captures(s, ps);
    var r := [Capture(s, p)] + Captures(s, rest);
    forall k | 0 <= k < |l|
      ensures l[k] == r[k]
    {
      if k > 0 {
        assert ps[k] == rest[k - 1];
      }
    }
  }

  /** The loop of `findFileSharedItemIds`: the iterator of `matchAll` resumes
      at the end of each match (its `lastIndex`), and each capture group is
      pushed onto the result. */
  method CollectFileSharedItemIds(content: string) returns (ids: seq<string>)
    ensures ids == FindFileSharedItemIds(content)
  {
    ids := [];
    var lastIndex := 0;
    ghost var all := Captures(content, MatchStarts(content, 0));
    while lastIndex < |content|
      invariant lastIndex <= |content|
      invariant ids + Captures(content, MatchStarts(content, lastIndex)) == all
      decreases |content| - lastIndex
    {
      if MatchAt(content, lastIndex) {
        var e := RunEnd(content, lastIndex + PrefixLength);
        assert MatchStarts(content, lastIndex) == [lastIndex] + MatchStarts(content, e);
        CapturesCons(content, lastIndex, MatchStarts(content, e));
        ids := ids + [content[lastIndex + PrefixLength..e]];
        lastIndex := e;
      } else {
        assert MatchStarts(content, lastIndex) == MatchStarts(content, lastIndex + 1);
        lastIndex := lastIndex + 1;
      }
    }
    assert Captures(content, MatchStarts(content, lastIndex)) == [];
    assert all == FindFileSharedItemIds(content);
  }
}
