/** Best-effort collection of file names over the directories of a search path.
    Directory listing and OS-string decoding are I/O; they enter the model as a
    given `ReadDir` function and as `OsString` values. */
module Collect {
  import opened Types

  /** A platform file name: either valid Unicode text or raw data that is not. */
  datatype OsString = Unicode(text: string) | NonUnicode(raw: seq<int>)

  /** One successfully read directory entry. */
  datatype DirEntry = DirEntry(fileName: OsString)

  /** A directory listing in reported order; a failed entry read is `None`. */
  type Listing = seq<Option<DirEntry>>

  /** `read_dir`: the listing of a path, or `None` when it cannot be opened. */
  type ReadDir = string -> Option<Listing>

  /** `OsString::into_string`: the text of a name that is valid Unicode. */
  function IntoString(name: OsString): (r: Option<string>)
    ensures r.Some? <==> name.Unicode?
    ensures name.Unicode? ==> r == Some(name.text)
  {
    match name
    case Unicode(t) => Some(t)
    case NonUnicode(_) => None
  }

  /** The file name of an entry that was read, nothing for a failed one. */
  function FileNameOf(entry: Option<DirEntry>): Option<OsString> {
    match entry
    case Some(e) => Some(e.fileName)
    case None => None
  }

  /** Rust's `filter_map`: apply `f` to each element in order, keep the `Some` values. */
  function FilterMap<A, B>(xs: seq<A>, f: A -> Option<B>): (ys: seq<B>)
    ensures |ys| <= |xs|
  {
    if |xs| == 0 then []
    else
      var rest := FilterMap(xs[1..], f);
      match f(xs[0])
      case Some(y) => [y] + rest
      case None => rest
  }

  /** Rust's `flatten` over a sequence of sequences. */
  function Flatten<A>(xss: seq<seq<A>>): seq<A> {
    if |xss| == 0 then [] else xss[0] + Flatten(xss[1..])
  }

  /** The readable file names of one directory, or `None` when it cannot be read. */
  function ListNames(readDir: ReadDir, path: string): Option<seq<OsString>> {
    match readDir(path)
    case Some(listing) => Some(FilterMap(listing, FileNameOf))
    case None => None
  }

  /** The iterator chain of `obtain_entries` after the split: list every
      directory, drop the unreadable ones and the failed entries, flatten, and
      keep the names that decode to text. */
  function CollectNames(paths: seq<string>, readDir: ReadDir): seq<string> {
    FilterMap(Flatten(FilterMap(paths, p => ListNames(readDir, p))), IntoString)
  }

  /** The names one directory contributes: its entries that were read and whose
      names are Unicode, in listing order; nothing when it cannot be read. */
  function DirNames(readDir: ReadDir, path: string): seq<string> {
    match readDir(path)
    case None => []
    case Some(listing) => EntryTexts(listing)
  }

  /** The Unicode names of the readable entries of a listing, in order. */
  function EntryTexts(listing: Listing): (r: seq<string>)
    ensures |r| <= |listing|
  {
    if |listing| == 0 then []
    else if listing[0].Some? && listing[0].value.fileName.Unicode? then
      [listing[0].value.fileName.text] + EntryTexts(listing[1..])
    else EntryTexts(listing[1..])
  }

  /** Reference definition: each directory's names, directories in search-path order. */
  function NamesInOrder(paths: seq<string>, readDir: ReadDir): seq<string> {
    if |paths| == 0 then [] else DirNames(readDir, paths[0]) + NamesInOrder(paths[1..], readDir)
  }

  /** True when the directory at `path` can be read and lists an entry, read
      without error, whose file name is the Unicode text `name`. */
  predicate Lists(readDir: ReadDir, path: string, name: string) {
    readDir(path).Some? && Some(DirEntry(Unicode(name))) in readDir(path).value
  }

  lemma {:induction false} FilterMapAppend<A, B>(xs: seq<A>, ys: seq<A>, f: A -> Option<B>)
    ensures FilterMap(xs + ys, f) == FilterMap(xs, f) + FilterMap(ys, f)
  {
    if |xs| > 0 {
      assert (xs + ys)[1..] == xs[1..] + ys;
      FilterMapAppend(xs[1..], ys, f);
    } else {
      assert xs + ys == ys;
    }
  }

  lemma {:induction false} FlattenAppend<A>(xss: seq<seq<A>>, yss: seq<seq<A>>)
    ensures Flatten(xss + yss) == Flatten(xss) + Flatten(yss)
  {
    if |xss| > 0 {
      assert (xss + yss)[1..] == xss[1..] + yss;
      FlattenAppend(xss[1..], yss);
    } else {
      assert xss + yss == yss;
    }
  }

  /** Decoding the file names of a listing keeps exactly the readable Unicode ones. */
  lemma {:induction false} DecodeListing(listing: Listing)
    ensures FilterMap(FilterMap(listing, FileNameOf), IntoString) == EntryTexts(listing)
  {
    if |listing| > 0 {
      DecodeListing(listing[1..]);
    }
  }

  /** The iterator chain equals the directory-by-directory reference definition:
      the output is exactly the successful listings, flattened in search-path
      order, with failed entries and undecodable names removed. */
  lemma {:induction false} CollectNamesInOrder(paths: seq<string>, readDir: ReadDir)
    ensures CollectNames(paths, readDir) == NamesInOrder(paths, readDir)
  {
    if |paths| > 0 {
      var f := p => ListNames(readDir, p);
      var lists := FilterMap(paths, f);
      CollectNamesInOrder(paths[1..], readDir);
      var restLists := FilterMap(paths[1..], f);
      match readDir(paths[0])
      case None =>
        assert lists == restLists;
      case Some(listing) =>
        var head := FilterMap(listing, FileNameOf);
        assert lists == [head] + restLists;
        assert Flatten(lists) == head + Flatten(restLists);
        FilterMapAppend(head, Flatten(restLists), IntoString);
        DecodeListing(listing);
    }
  }

  lemma {:induction false} NamesInOrderAppend(a: seq<string>, b: seq<string>, readDir: ReadDir)
    ensures NamesInOrder(a + b, readDir) == NamesInOrder(a, readDir) + NamesInOrder(b, readDir)
  {
    if |a| > 0 {
      assert (a + b)[1..] == a[1..] + b;
      NamesInOrderAppend(a[1..], b, readDir);
    } else {
      assert a + b == b;
    }
  }

  /** Directory order is kept: the names collected over a search path are those
      of its first `k` directories followed by those of the rest, so every name
      from an earlier directory precedes every name from a later one. */
  lemma CollectSplitsAtDirectory(paths: seq<string>, readDir: ReadDir, k: nat)
    requires k <= |paths|
    ensures CollectNames(paths, readDir)
         == CollectNames(paths[..k], readDir) + CollectNames(paths[k..], readDir)
  {
    assert paths == paths[..k] + paths[k..];
    NamesInOrderAppend(paths[..k], paths[k..], readDir);
    CollectNamesInOrder(paths, readDir);
    CollectNamesInOrder(paths[..k], readDir);
    CollectNamesInOrder(paths[k..], readDir);
  }

  /** A directory that cannot be read is skipped silently: the result is the
      same as if it were not on the search path. */
  lemma UnreadableDirectorySkipped(before: seq<string>, path: string, after: seq<string>, readDir: ReadDir)
    requires readDir(path).None?
    ensures CollectNames(before + [path] + after, readDir) == CollectNames(before + after, readDir)
  {
    NamesInOrderAppend(before + [path], after, readDir);
    NamesInOrderAppend(before, [path], readDir);
    NamesInOrderAppend(before, after, readDir);
    CollectNamesInOrder(before + [path] + after, readDir);
    CollectNamesInOrder(before + after, readDir);
  }

  lemma {:induction false} EntryTextsMember(listing: Listing, name: string)
    ensures name in EntryTexts(listing) <==> Some(DirEntry(Unicode(name))) in listing
  {
    if |listing| > 0 {
      EntryTextsMember(listing[1..], name);
      assert listing == [listing[0]] + listing[1..];
    }
  }

  lemma {:induction false} NamesInOrderMember(paths: seq<string>, readDir: ReadDir, name: string)
    ensures name in NamesInOrder(paths, readDir)
        <==> exists i :: 0 <= i < |paths| && Lists(readDir, paths[i], name)
  {
    if |paths| > 0 {
      NamesInOrderMember(paths[1..], readDir, name);
      if readDir(paths[0]).Some? {
        EntryTextsMember(readDir(paths[0]).value, name);
      }
      if exists i :: 0 <= i < |paths| && Lists(readDir, paths[i], name) {
        var i :| 0 <= i < |paths| && Lists(readDir, paths[i], name);
        if i > 0 {
          assert paths[1..][i - 1] == paths[i];
        }
      }
      if exists i :: 0 <= i < |paths[1..]| && Lists(readDir, paths[1..][i], name) {
        var i :| 0 <= i < |paths[1..]| && Lists(readDir, paths[1..][i], name);
        assert paths[i + 1] == paths[1..][i];
      }
    }
  }

  /** A name is collected exactly when some directory on the search path can be
      read and lists an entry, read without error, with that Unicode name. */
  lemma CollectMember(paths: seq<string>, readDir: ReadDir, name: string)
    ensures name in CollectNames(paths, readDir)
        <==> exists i :: 0 <= i < |paths| && Lists(readDir, paths[i], name)
  {
    CollectNamesInOrder(paths, readDir);
    NamesInOrderMember(paths, readDir, name);
  }

  /** The collection loop written out: for each directory in order, every entry
      that was read and whose name decodes is appended. It computes exactly what
      the iterator chain computes. */
  method CollectLoop(paths: seq<string>, readDir: ReadDir) returns (names: seq<string>)
    ensures names == CollectNames(paths, readDir)
  {
    names := [];
    for i := 0 to |paths|
      invariant names == NamesInOrder(paths[..i], readDir)
    {
      var found := [];
      match readDir(paths[i]) {
        case None =>
        case Some(listing) =>
          for j := 0 to |listing|
            invariant found + EntryTexts(listing[j..]) == EntryTexts(listing)
          {
            assert listing[j..][1..] == listing[j + 1..];
            match listing[j] {
              case None =>
              case Some(entry) =>
                match IntoString(entry.fileName) {
                  case None =>
                  case Some(text) =>
                    found := found + [text];
                }
            }
          }
      }
      assert found == DirNames(readDir, paths[i]);
      NamesInOrderAppend(paths[..i], [paths[i]], readDir);
      assert paths[..i + 1] == paths[..i] + [paths[i]];
      names := names + found;
    }
    assert paths[..|paths|] == paths;
    CollectNamesInOrder(paths, readDir);
  }
}
