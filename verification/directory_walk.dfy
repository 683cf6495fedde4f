/** `findDirectorySharedItemIds` of index.ts over an in-memory tree: the
    listing of a directory is visited in order, a sub-directory contributes
    its own recursive result and a file contributes the ids scanned from its
    content, all appended to one flat sequence. The fold is stated for any
    per-file scan and instantiated with `FindFileSharedItemIds`. */
module DirectoryWalk {
  import opened SharedIdScan

  /** A directory entry: a regular file with its text content, or a
      directory with its listing in the order the listing returns it. */
  datatype Node = File(content: string) | Dir(entries: seq<Entry>)

  /** One name of a directory listing and the node it leads to. */
  datatype Entry = Entry(name: string, node: Node)

  /** Ids found under `n` when each file is scanned with `scan`, in walk
      order: the scans of its regular files, each taken once, one after the
      other. Nesting adds nothing and loses nothing. */
  function NodeIds(n: Node, scan: string -> seq<string>): (ids: seq<string>)
    ensures ids == ScanAll(FileContents(n), scan)
    decreases n
  {
    match n
    case File(content) =>
      assert [content][1..] == [];
      scan(content)
    case Dir(entries) => ListingIds(entries, scan)
  }

  /** Ids of a directory listing, concatenated in listing order: the scans
      of every regular file of the tree below it, in walk order. */
  function ListingIds(entries: seq<Entry>, scan: string -> seq<string>): (ids: seq<string>)
    ensures ids == ScanAll(ListingFileContents(entries), scan)
    decreases entries
  {
    if |entries| == 0 then []
    else
      ScanAllAppend(FileContents(entries[0].node), ListingFileContents(entries[1..]), scan);
      NodeIds(entries[0].node, scan) + ListingIds(entries[1..], scan)
  }

  /** What `findDirectorySharedItemIds` returns for a directory whose listing
      is `entries`: the shared ids of its files, file after file, as many as
      the file scans find together. */
  function FindDirectorySharedItemIds(entries: seq<Entry>): (ids: seq<string>)
    ensures ids == ScanAll(ListingFileContents(entries), FindFileSharedItemIds)
    ensures |ids| == ScanCount(ListingFileContents(entries), FindFileSharedItemIds)
  {
    ScanAllLength(ListingFileContents(entries), FindFileSharedItemIds);
    ListingIds(entries, FindFileSharedItemIds)
  }

  /** Contents of the regular files under `n`, in walk order. */
  function FileContents(n: Node): seq<string>
    decreases n
  {
    match n
    case File(content) => [content]
    case Dir(entries) => ListingFileContents(entries)
  }

  /** Contents of the regular files under a listing, in walk order. */
  function ListingFileContents(entries: seq<Entry>): seq<string>
    decreases entries
  {
    if |entries| == 0 then []
    else FileContents(entries[0].node) + ListingFileContents(entries[1..])
  }

  /** The scans of `contents`, one file after the other. */
  function ScanAll(contents: seq<string>, scan: string -> seq<string>): seq<string> {
    if |contents| == 0 then []
    else scan(contents[0]) + ScanAll(contents[1..], scan)
  }

  /** Total number of ids the scans of `contents` produce. */
  function ScanCount(contents: seq<string>, scan: string -> seq<string>): nat {
    if |contents| == 0 then 0
    else |scan(contents[0])| + ScanCount(contents[1..], scan)
  }

  /** An id is in the joined scans exactly when one of the files yields it. */
  lemma ScanAllMembership(contents: seq<string>, scan: string -> seq<string>, id: string)
    ensures id in ScanAll(contents, scan) <==>
              exists k :: 0 <= k < |contents| && id in scan(contents[k])
  {
    if id in ScanAll(contents, scan) {
      var k := ScanAllSource(contents, scan, id);
    }
    if exists k :: 0 <= k < |contents| && id in scan(contents[k]) {
      var k :| 0 <= k < |contents| && id in scan(contents[k]);
      ScanAllCovers(contents, scan, k, id);
    }
  }

  /** The file an id of the joined scans comes from. */
  lemma {:induction false} ScanAllSource(contents: seq<string>, scan: string -> seq<string>, id: string)
      returns (k: nat)
    requires id in ScanAll(contents, scan)
    ensures k < |contents| && id in scan(contents[k])
    decreases |contents|
  {
    if id in scan(contents[0]) {
      k := 0;
    } else {
      var j := ScanAllSource(contents[1..], scan, id);
      k := j + 1;
    }
  }

  /** Every id of every file is in the joined scans. */
  lemma {:induction false} ScanAllCovers(contents: seq<string>, scan: string -> seq<string>, k: nat, id: string)
    requires k < |contents| && id in scan(contents[k])
    ensures id in ScanAll(contents, scan)
    decreases k
  {
    if k > 0 {
      ScanAllCovers(contents[1..], scan, k - 1, id);
    }
  }

  lemma {:induction false} ScanAllAppend(a: seq<string>, b: seq<string>, scan: string -> seq<string>)
    ensures ScanAll(a + b, scan) == ScanAll(a, scan) + ScanAll(b, scan)
    decreases |a|
  {
    if |a| > 0 {
      assert (a + b)[1..] == a[1..] + b;
      ScanAllAppend(a[1..], b, scan);
    } else {
      assert a + b == b;
    }
  }

  lemma {:induction false} ScanAllLength(contents: seq<string>, scan: string -> seq<string>)
    ensures |ScanAll(contents, scan)| == ScanCount(contents, scan)
    decreases |contents|
  {
    if |contents| > 0 {
      ScanAllLength(contents[1..], scan);
    }
  }

  /** The walk finds an id exactly when some file of the tree contains it,
      and finds as many ids as the per-file scans together. */
  lemma WalkIdsComeFromFiles(entries: seq<Entry>)
    ensures forall id :: id in FindDirectorySharedItemIds(entries) <==>
              exists k :: 0 <= k < |ListingFileContents(entries)|
                && id in FindFileSharedItemIds(ListingFileContents(entries)[k])
    ensures |FindDirectorySharedItemIds(entries)|
         == ScanCount(ListingFileContents(entries), FindFileSharedItemIds)
  {
    var contents := ListingFileContents(entries);
    forall id
      ensures id in ScanAll(contents, FindFileSharedItemIds) <==>
        exists k :: 0 <= k < |contents| && id in FindFileSharedItemIds(contents[k])
    {
      ScanAllMembership(contents, FindFileSharedItemIds, id);
    }
  }

  /** Every id the walk returns is non-empty and free of `?`, as every id of
      a single file is. */
  lemma WalkIdsAreWellFormed(entries: seq<Entry>)
    ensures forall id :: id in FindDirectorySharedItemIds(entries) ==> |id| > 0 && '?' !in id
  {
    WalkIdsComeFromFiles(entries);
  }

  /** Appending an entry to a listing appends its ids: the walk is the
      left-to-right accumulation `push(...ids)` of the source loop. */
  lemma {:induction false} ListingIdsAppend(entries: seq<Entry>, e: Entry, scan: string -> seq<string>)
    ensures ListingIds(entries + [e], scan) == ListingIds(entries, scan) + NodeIds(e.node, scan)
    decreases |entries|
  {
    if |entries| == 0 {
      assert [e][1..] == [];
    } else {
      assert (entries + [e])[1..] == entries[1..] + [e];
      ListingIdsAppend(entries[1..], e, scan);
    }
  }

  /** The ids of the listing up to entry `i` inclusive. */
  lemma ListingIdsPrefixStep(entries: seq<Entry>, i: nat, scan: string -> seq<string>)
    requires i < |entries|
    ensures ListingIds(entries[..i + 1], scan) == ListingIds(entries[..i], scan) + NodeIds(entries[i].node, scan)
  {
    var before := entries[..i];
    var e := entries[i];
    assert entries[..i + 1] == before + [e];
    ListingIdsAppend(before, e, scan);
  }

  /** The loop of `findDirectorySharedItemIds`: visit the listing in order,
      recurse into directories, scan files, and append what each returns. */
  method CollectDirectorySharedItemIds(entries: seq<Entry>) returns (ids: seq<string>)
    ensures ids == FindDirectorySharedItemIds(entries)
    decreases entries
  {
    ids := [];
    var i := 0;
    while i < |entries|
      invariant i <= |entries|
      invariant ids == ListingIds(entries[..i], FindFileSharedItemIds)
    {
      var found := CollectEntrySharedItemIds(entries, i);
      ListingIdsPrefixStep(entries, i, FindFileSharedItemIds);
      ids := ids + found;
      i := i + 1;
    }
    assert entries[..i] == entries;
  }

  /** One iteration of that loop: a directory is walked recursively, a file
      is scanned. */
  method CollectEntrySharedItemIds(entries: seq<Entry>, i: nat) returns (found: seq<string>)
    requires i < |entries|
    ensures found == NodeIds(entries[i].node, FindFileSharedItemIds)
    decreases entries, 0
  {
    match entries[i].node
    case Dir(children) =>
      found := CollectDirectorySharedItemIds(children);
    case File(content) =>
      found := CollectFileSharedItemIds(content);
  }
}
