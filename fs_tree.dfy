/**
 * Entries as a provider reports them: an immutable snapshot of a file or a
 * directory tree. A directory carries the listing the provider would return
 * for it, or the fact that listing it fails. The size scan and the transfer
 * walk both read this one snapshot.
 */
module FsTree {

  /** A path, as the sequence of its components. */
  type Path = seq<string>

  /** `FsFile`: a file entry with its name and its size in bytes. */
  datatype FsFile = FsFile(name: string, size: nat)

  /** What listing a directory gives: its entries, or a failure. */
  datatype Listing = Listed(entries: seq<Entry>) | ListFailed

  /** `FsEntry`: a file or a directory. */
  datatype Entry = File(file: FsFile) | Directory(dirName: string, listing: Listing)
  {
    function Name(): string {
      match this
      case File(f) => f.name
      case Directory(n, _) => n
    }

    /** The entries found inside a directory that can be listed; none otherwise. */
    function Children(): seq<Entry> {
      if Directory? && listing.Listed? then listing.entries else []
    }
  }

  // -- transfer sizes

  /** The sizes of every file reachable from `e` through directories that can be listed, in walk order. */
  function FileSizes(e: Entry): seq<nat>
    decreases e, 1
  {
    match e
    case File(f) => [f.size]
    case Directory(_, ListFailed) => []
    case Directory(_, Listed(cs)) => ForestFileSizes(cs)
  }

  function ForestFileSizes(cs: seq<Entry>): seq<nat>
    decreases cs, 0
  {
    if cs == [] then [] else ForestFileSizes(cs[..|cs| - 1]) + FileSizes(cs[|cs| - 1])
  }

  function Sum(s: seq<nat>): nat {
    if s == [] then 0 else Sum(s[..|s| - 1]) + s[|s| - 1]
  }

  lemma {:induction false} SumConcat(a: seq<nat>, b: seq<nat>)
    ensures Sum(a + b) == Sum(a) + Sum(b)
    decreases |b|
  {
    if b == [] {
      assert a + b == a;
    } else {
      var b' := b[..|b| - 1];
      assert (a + b)[..|a + b| - 1] == a + b';
      SumConcat(a, b');
    }
  }

  /**
   * The size a transfer of `e` accounts for: a file's size, or the sum over
   * the entries of a directory; a directory that cannot be listed counts 0.
   * Whatever the nesting depth, that is the sum of the sizes of the files
   * under `e`.
   */
  function TotalSize(e: Entry): (n: nat)
    ensures n == Sum(FileSizes(e))
    decreases e, 1
  {
    match e
    case File(f) =>
      assert [f.size][..0] == [];
      f.size
    case Directory(_, ListFailed) => 0
    case Directory(_, Listed(cs)) => SumOfTotals(cs)
  }

  /** The sum of `TotalSize` over a sequence of entries: the sum of the sizes of all the files under them. */
  function SumOfTotals(cs: seq<Entry>): (n: nat)
    ensures n == Sum(ForestFileSizes(cs))
    decreases cs, 0
  {
    if cs == [] then 0
    else
      var init, last := cs[..|cs| - 1], cs[|cs| - 1];
      SumConcat(ForestFileSizes(init), FileSizes(last));
      SumOfTotals(init) + TotalSize(last)
  }

  /** Extending a batch by one entry adds that entry's size. */
  lemma SumOfTotalsSnoc(cs: seq<Entry>, i: nat)
    requires i < |cs|
    ensures SumOfTotals(cs[..i + 1]) == SumOfTotals(cs[..i]) + TotalSize(cs[i])
  {
    assert cs[..i + 1][..i] == cs[..i];
  }

  /** The entries listed first account for no more than the whole listing. */
  lemma {:induction false} SumOfTotalsPrefix(cs: seq<Entry>, i: nat)
    requires i <= |cs|
    ensures SumOfTotals(cs[..i]) <= SumOfTotals(cs)
    decreases |cs| - i
  {
    if i < |cs| {
      SumOfTotalsSnoc(cs, i);
      SumOfTotalsPrefix(cs, i + 1);
    } else {
      assert cs[..i] == cs;
    }
  }

  // -- names below an entry

  /**
   * `q` leads from `e` to one of the entries inside it, each step taking an
   * entry's own name (`[]` names `e` itself).
   */
  ghost predicate IsNamePath(e: Entry, q: Path)
    decreases e, 1
  {
    q == [] || (e.Directory? && e.listing.Listed? && InForest(e.listing.entries, q))
  }

  /** `q` starts with the name of one of `cs` and continues as a name path inside it. */
  ghost predicate InForest(cs: seq<Entry>, q: Path)
    decreases cs, 0
  {
    q != [] && exists i :: 0 <= i < |cs| && cs[i].Name() == q[0] && IsNamePath(cs[i], q[1..])
  }

  /** `path` is `root` followed by a name path of `e`. */
  ghost predicate Under(path: Path, root: Path, e: Entry) {
    |root| <= |path| && path[..|root|] == root && IsNamePath(e, path[|root|..])
  }

  /** A path below a child of a listed directory, named by the child's own name, is below the directory. */
  lemma UnderChild(path: Path, root: Path, e: Entry, i: nat)
    requires e.Directory? && e.listing.Listed? && i < |e.listing.entries|
    requires Under(path, root + [e.listing.entries[i].Name()], e.listing.entries[i])
    ensures Under(path, root, e)
  {
    UnderBatchEntry(path, root, e.listing.entries, i);
  }

  /** A path below an entry of a batch, named by the entry's own name, is in the forest of the batch. */
  lemma UnderBatchEntry(path: Path, root: Path, cs: seq<Entry>, i: nat)
    requires i < |cs|
    requires Under(path, root + [cs[i].Name()], cs[i])
    ensures |root| <= |path| && path[..|root|] == root && InForest(cs, path[|root|..])
  {
    var top := root + [cs[i].Name()];
    assert path[..|root|] == path[..|top|][..|root|] == top[..|root|] == root;
    assert path[|root|] == path[..|top|][|root|] == top[|root|] == cs[i].Name();
    var q := path[|root|..];
    assert q[0] == path[|root|];
    assert q[1..] == path[|top|..];
    assert InForest(cs, q);
  }
}
