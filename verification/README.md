# onedrive-embed: shared-id extraction and parent-path split

This project models the text logic of `index.ts` from onedrive-embed. The
tool reads markup from a directory tree, finds each embedded OneDrive short
link `://1drv.ms/i/<shared id>`, and asks Microsoft Graph where each shared
item lives. The model covers the three pure parts of that program:

- **`findFileSharedItemIds`** (`SharedIdScan`). It applies
  `content.matchAll(/\:\/\/1drv.ms\/i\/([^\?]+)/g)` and pushes each capture
  group.
  - ECMAScript `matchAll` takes the leftmost match and then resumes the
    search where that match ended. `MatchStarts` models this enumeration.
  - Greedy `[^?]+` stops at the first `?` or at the end of the content.
    `RunEnd` models this.
  - The unescaped `.` between `1drv` and `ms` accepts any single UTF-16
    code unit that is not a line terminator. `RegexChars` models this.
- **`findDirectorySharedItemIds`** (`DirectoryWalk`). It walks a directory
  listing in order. A sub-directory contributes its own recursive result, a
  file contributes the ids scanned from its content, and everything is
  appended into one flat array.
  - The file system is an in-memory tree of `Node`s.
  - The fold is written once for any per-file scan.
- **The parent-path split of `getOneDriveFilePath`** (`ParentPath`). It applies
  `parentReference.path.match(/.*\:(.*)/)` followed by `matchGroups![1]`.
  - The leftmost match starts on the first line that holds a `:`.
  - Greedy `.*` then runs to the last `:` of that line, and the group is the
    rest of that line.
  - A path without `:` has no match, so `match` returns `null`. The `!` is
    a type assertion that does nothing at run time, and indexing `null` with
    `[1]` throws a TypeError. This is the `Err(NoMatch)` case of
    `ParentDirectory`.

Each operation comes with:

- an executable loop that mirrors the source (for the two scans);
- a functional definition;
- lemmas that tie the definition to an independent description of the regex
  semantics.

Those descriptions are `IsMatchAllPositions`, `MaximalCaptureAt` and
`SplitAtColon`. Each is proved in both directions.

Two consequences of the code:

- Duplicate ids are kept, in order of occurrence. The array is never
  deduplicated.
- The directory part keeps its leading `/`. `ParentDirectory` yields
  `/Pictures/metro-evolved-pictures` for the example in the comment at
  index.ts:64.

## Model

| member | source | states |
|---|---|---|
| SharedIdScan.FindFileSharedItemIds | index.ts:6-23 | every shared id returned is non-empty and contains no `?` |
| SharedIdScan.CollectFileSharedItemIds | index.ts:18-22 | the `for…of matchAll` loop, resuming at the end of each match and pushing `match[1]`, returns exactly the captures of the leftmost non-overlapping matches |
| SharedIdScan.PrefixAtIsSlice | index.ts:18 | the prefix matches at `i` iff the text there is `://1drv`, then one character the unescaped `.` accepts, then `ms/i/` |
| SharedIdScan.PrefixLayout | index.ts:18 | the `.` sits at offset 7 of the prefix, the length of `://1drv`, and the prefix is 13 characters long |
| SharedIdScan.MatchAt | index.ts:18 | the pattern matches at `i` iff the prefix matches there and the greedy `[^?]` run after it is non-empty, as `+` demands |
| SharedIdScan.RunEnd | index.ts:18 | the greedy `[^?]` run from `j` ends between `j` and the end of the text; `RunEndIsFirstQuestionMark` proves where |
| SharedIdScan.MatchStarts | index.ts:18-20 | every position `matchAll` enumerates lies at or after the search start and is a match |
| SharedIdScan.MatchStartsCharacterised | index.ts:18 | the positions `matchAll` visits are exactly those where each match is the leftmost one at or after the end of the previous match, with no match after the last; no other position sequence qualifies |
| SharedIdScan.LiteralAtIsSlice | index.ts:18 | a literal part of the pattern matches at `i` iff the text at `i` equals it |
| SharedIdScan.RunEndIsFirstQuestionMark | index.ts:18 | greedy `[^?]` stops at the first `?` at or after its start, or at the end of the text |
| SharedIdScan.CaptureShape | index.ts:18 | a capture group `([^\?]+)` is non-empty and `?`-free |
| SharedIdScan.CaptureIsMaximal | index.ts:18 | a match's capture sits right after the prefix `://1drv` + any character + `ms/i/` and is followed by `?` or the end |
| SharedIdScan.MaximalCaptureIsMatch | index.ts:18 | conversely, a prefix followed by a maximal non-empty `?`-free run is a match capturing exactly that run |
| SharedIdScan.IdsFollowPrefixMaximally | index.ts:13-19 | every id returned follows a link prefix in the content and runs up to a `?` or the end |
| SharedIdScan.NoIdsIffNoMatch | index.ts:18-22 | the result is empty iff the pattern matches nowhere in the content |
| SharedIdScan.NoPrefixNoIds | index.ts:18-22 | content without the link prefix yields no id |
| SharedIdScan.MatchStartsOrdered | index.ts:18-20 | ids come out in order of occurrence and their matches never overlap |
| SharedIdScan.AbsorbedLinkYieldsNoMatch | index.ts:18 | a link starting inside an earlier match, before its `?`, is not matched on its own |
| SharedIdScan.LinkOccurrence | index.ts:18 | a link with the prefix and an id written out at a position, followed by `?`, is a match there capturing that id |
| SharedIdScan.SingleLink | index.ts:17-19 | a lone link `prefix + id + "?"`, whatever character stands at the `.`, yields exactly `[id]` |
| SharedIdScan.LoneLink | index.ts:18-19 | a link with no `:` before it or after its `?` is the only match, giving exactly `[id]` |
| SharedIdScan.EmbeddedLink | index.ts:13-19 | a link inside surrounding markup that has no other `:` yields exactly its id |
| SharedIdScan.SampleElement | index.ts:13-16 | the sample `<img src="https://1drv.ms/i/s!Amsl…?embed=1…" />` element yields exactly the id `s!AmslmcZf6z3Lg98-IHg6iib_9ykDOw` |
| SharedIdScan.BrokenWildcardYieldsNothing | index.ts:18 | where the unescaped `.` stands, a line terminator or a character outside the Basic Multilingual Plane stops the link from matching |
| SharedIdScan.GreedyCaptureAbsorbsLaterLink | index.ts:18 | `Link + a + Link + b + "?"` yields the single id `a + Link + b`: the greedy group swallows a later link |
| SharedIdScan.DuplicatesRetained | index.ts:18-19 | the same link written twice yields the same id twice |
| SharedIdScan.CapturesCons | index.ts:19 | the captures of a match followed by more matches are its own capture followed by theirs |
| DirectoryWalk.FindDirectorySharedItemIds | index.ts:25-44 | the walk returns the shared ids of every regular file of the tree, file after file in walk order, as many as the file scans find together |
| DirectoryWalk.NodeIds | index.ts:34-40 | the ids under a node are the scans of its regular files, each taken once, in walk order |
| DirectoryWalk.ListingIds | index.ts:30-43 | the ids of a listing are the scans of every regular file below it, in listing order |
| DirectoryWalk.WalkIdsComeFromFiles | index.ts:25-44 | an id is returned iff some file of the tree yields it, and the number of ids is the sum of the per-file counts |
| DirectoryWalk.WalkIdsAreWellFormed | index.ts:25-44 | every id from the walk is non-empty and `?`-free |
| DirectoryWalk.ScanAllMembership | index.ts:36-39 | an id is in the joined scans iff one file yields it |
| DirectoryWalk.ScanAllLength | index.ts:36-39 | the joined scans hold as many ids as the scans together |
| DirectoryWalk.ScanAllAppend | index.ts:36-39 | scanning two file sequences one after the other joins their results |
| DirectoryWalk.ListingIdsAppend | index.ts:32-41 | one more entry in the listing appends exactly that entry's ids (`push(...ids)`) |
| DirectoryWalk.CollectDirectorySharedItemIds | index.ts:25-44 | the loop over the listing returns the in-order concatenation of every entry's ids |
| DirectoryWalk.CollectEntrySharedItemIds | index.ts:34-40 | a directory entry is walked recursively and a file entry is scanned |
| ParentPath.ColonFrom | index.ts:66 | the first `:` at or after `j`, or the end of the text when there is none |
| ParentPath.LineEnd | index.ts:66 | the first line terminator at or after `j`, or the end; none lies before it, so `.` can cross that stretch |
| ParentPath.LastColonIn | index.ts:66 | the last `:` before `hi`, where greedy `.*\:` backtracks to |
| ParentPath.ParentDirectory | index.ts:66-67 | the split fails iff the path has no `:`; otherwise the directory contains no `:` and no line break |
| ParentPath.ParentDirectoryIsRegexGroup | index.ts:66 | the directory is the text after the last `:` of the first line holding a `:`, up to the end of that line |
| ParentPath.RegexGroupIsParentDirectory | index.ts:66 | conversely, any text placed like that is the directory returned |
| ParentPath.SingleLineSplitsAtLastColon | index.ts:63-66 | on a path without line breaks the directory is the whole suffix after the last `:` |
| ParentPath.SplitsAtLastColon | index.ts:63-67 | `a + ":" + b` on one line, with `b` free of `:`, yields exactly `b` |
| ParentPath.PicturesExample | index.ts:63-66 | `/drive/root:/Pictures/metro-evolved-pictures` yields `/Pictures/metro-evolved-pictures` |

## Left out

- Reading files (`fs.readFileSync`, `readdirSync`, `statSync`) is left out. A directory tree is an in-memory value; each file's content is given as a string, and `isDirectory()` is the `Dir`/`File` constructor. Symbolic links, permission errors and unreadable files are not modelled.
- ListingIdsAppend: `sharedItemIds.push(...ids)` (index.ts:36 and index.ts:39) passes every id as a separate argument. A JavaScript engine limits the number of call arguments, and V8 throws a RangeError when the array is very large (on the order of 10^5 ids). The model appends without that limit, so it does not model this exception.
- FindDirectorySharedItemIds: the walk recurses once per directory level, and a deep enough tree would exhaust the engine's call stack. The model recurses without that limit.
- RunEnd: its own contract gives only the bounds of the run. Keeping the quantified facts out of it keeps every proof that unfolds a match cheap; `RunEndIsFirstQuestionMark` and `RunEndUnique` state that the run stops exactly at the first `?`.
- MatchStarts: its own contract says only that every position is a match at or after the start. `MatchStartsCharacterised` states that the positions are exactly the ones `matchAll` visits.
- `path.join` (index.ts:33 and index.ts:70) is left out. Entry names are carried but play no part in the ids, and joining the directory with `driveItem.name` is Node's path library, outside this program.
- The Microsoft Graph calls in `getOneDriveFilePath` (index.ts:50-61) are left out: they are network I/O. `ParentDirectory` takes the `parentReference.path` string they return as its input.
- `main` (index.ts:76-112) is left out. This covers argument parsing with minimist, the usage message, the authentication provider, the `console.log` output and the sequencing of `async`/`await`; all of it is I/O or foreign code.
- Strings are sequences of Unicode scalar values, whereas JavaScript strings are UTF-16 code units. The difference matters only at the unescaped `.`, which `MatchesSingleDot` models. Lone surrogates in the source text are not represented.
- A file whose content is not valid UTF-8 is not modelled: `readFileSync` with `utf8` replaces bad bytes before the scan.
