# medea name index, modelled in Dafny

medea indexes the names of the programs reachable through `PATH`. It has two
halves. `obtain_entries` splits `PATH` on a separator, lists each directory and
returns the file names that could be read and decoded. `init_entries`
terminates every name with the separator, concatenates them into one corpus,
builds a suffix table over the corpus and stores it in the write-once static
`ENTRIES`. The separator comes from the write-once static `SEPARATOR`, with
`':'` as the default.

The model is made of five modules:

- `Types` holds `Option` and `Result`.
- `OnceCells` models `OnceCell` as a sequential write-once slot.
- `Corpus` holds corpus concatenation, Rust-style `split` and its inverse `Join`.
- `Collect` holds the `filter_map`/`flatten` pipeline over given directory listings.
- `Medea` holds the two statics as an explicit `Statics` record, plus `InitEntries` and `ObtainEntries`.

Strings are `seq<char>`, so corpus lengths and offsets count chars rather
than UTF-8 bytes.

Inputs that come from the operating system are parameters. The `PATH` lookup
is an `EnvVar` value: `NotPresent`, `NotUnicode` or `Present(value)`.
`read_dir` is a function `string -> Option<Listing>`; `None` means the
directory could not be opened. Inside a listing, a failed entry read is
`None`. A file name is an `OsString` that is either `Unicode(text)` or
`NonUnicode`.

The collection pipeline of `obtain_entries` (src/lib.rs:53-85) is
`Collect.CollectNames`. It is built from three pieces. `Collect.ListNames`
lists one directory and takes the file names of the entries that were read
(src/lib.rs:56-74). `Collect.FileNameOf` takes the name of one entry
(src/lib.rs:62-66). `Collect.IntoString` decodes a name (src/lib.rs:78-84).

Notes on the code:

- The default separator is the fixed `':'` on every platform.
- The file has no query operation over the index.
- A missing or non-Unicode `PATH` is reported as the error returned by `std::env::var`. The model carries that cause in `EnvError`.

## Model

| member | source | states |
|---|---|---|
| OnceCells.OnceCell.Set | src/lib.rs:36-38 | the first set on an empty cell stores the value and returns Ok; a set on a filled cell returns Err carrying the rejected value and leaves the cell unchanged |
| OnceCells.SetEachOnSetCell | src/lib.rs:36-38 | once a cell holds a value, any series of further sets leaves it unchanged and each one fails with its own value |
| OnceCells.FirstSetWins | src/lib.rs:36-38 | of a series of sets on a fresh cell, the first succeeds and its value is the one stored at the end; all later ones fail |
| Corpus.Concat | src/lib.rs:30-34 | the corpus length is the sum of the entry lengths plus one per entry; the corpus is empty exactly when there are no entries; a non-empty corpus ends with the separator |
| Corpus.BuildCorpus | src/lib.rs:30-34 | the char-by-char map/flatten/collect loop produces exactly the in-order concatenation of each entry followed by the separator |
| Corpus.ConcatAppend | src/lib.rs:30-34 | the corpus of two lists joined is the corpus of the first followed by the corpus of the second |
| Corpus.ConcatSnoc | src/lib.rs:30-34 | appending one entry appends that entry and one separator |
| Corpus.EntryPosition | src/lib.rs:30-34 | entry i occupies the corpus from offset sum over j<i of (length of entry j + 1), and the separator follows it immediately |
| Corpus.ConcatIsJoin | src/lib.rs:30-34 | the corpus is the entries plus one empty piece joined with the separator |
| Corpus.Split | src/lib.rs:43-46 | splitting PATH gives at least one piece, no piece contains the separator, and joining the pieces with the separator reproduces PATH |
| Corpus.SplitSeparatorFree | src/lib.rs:44 | a string splits into itself alone if and only if it does not contain the separator |
| Corpus.SplitAtFirst | src/lib.rs:44 | splitting cuts at the first separator and continues on the rest |
| Corpus.SplitJoin | src/lib.rs:44 | splitting the join of separator-free pieces gives back those pieces |
| Corpus.SplitJoinInverse | src/lib.rs:44 | Split(s) equals a list of pieces if and only if the pieces are separator-free and join to s |
| Corpus.CorpusRoundTrip | src/lib.rs:30-34 | when no entry contains the separator, splitting the corpus gives back the entries in order followed by one empty trailing piece |
| Collect.IntoString | src/lib.rs:78-84 | a file name decodes exactly when it is valid Unicode, and then to that same text |
| Collect.FilterMap | src/lib.rs:54-75 | filter_map never yields more items than it is given |
| Collect.EntryTexts | src/lib.rs:58-84 | a directory contributes at most one name per listed entry |
| Collect.FilterMapAppend | src/lib.rs:53-85 | filter_map over two sequences joined is the two results joined, so it keeps order |
| Collect.FlattenAppend | src/lib.rs:76 | flattening two lists of lists joined is the two flattenings joined |
| Collect.DecodeListing | src/lib.rs:58-84 | taking the file names of read entries and then decoding them keeps exactly the entries read without error whose names are Unicode, in listing order |
| Collect.CollectNamesInOrder | src/lib.rs:53-85 | the iterator chain `CollectNames` (built from `ListNames`, `FileNameOf` and `IntoString`) yields exactly each readable directory's successfully read, decodable names, directories in PATH order |
| Collect.NamesInOrderAppend | src/lib.rs:53-85 | the names of two lists of directories joined are the names of the first list followed by those of the second |
| Collect.CollectSplitsAtDirectory | src/lib.rs:53-85 | for any cut point, the collection is that of the directories before it followed by that of those after it, so every name from an earlier directory precedes every name from a later one |
| Collect.UnreadableDirectorySkipped | src/lib.rs:54-75 | a directory that cannot be opened is skipped without error, with the same result as leaving it off the path |
| Collect.EntryTextsMember | src/lib.rs:58-84 | a name comes out of a listing exactly when the listing holds an entry, read without error, with that Unicode name |
| Collect.NamesInOrderMember | src/lib.rs:53-85 | a name is in the directory-by-directory result exactly when some readable directory of the path lists it |
| Collect.CollectMember | src/lib.rs:53-85 | a name is collected if and only if some readable directory on the path lists an entry, read without error, with that Unicode name |
| Collect.CollectLoop | src/lib.rs:53-85 | a loop over the directories that appends each successfully read, decodable name computes exactly the iterator chain's result |
| Medea.InitialStatics | src/lib.rs:21-22 | both statics start unset |
| Medea.ActiveSeparator | src/lib.rs:31 | the separator in force is the configured one if set, otherwise ':' |
| Medea.SetSeparator | src/lib.rs:21 | on an unset separator, stores the char and returns Ok; on a set one, returns Err with the char and changes nothing; the index is never touched |
| Medea.SetSeparatorWriteOnce | src/lib.rs:21 | after a first separator is configured, a second attempt fails and the separator in force stays the first |
| Medea.InitEntries | src/lib.rs:24-39 | on an unset index, stores the table built over the corpus of the entries with the active separator and returns Ok; on a set index, returns Err and changes nothing; the separator is never changed |
| Medea.SearchPath | src/lib.rs:43-46 | PATH splits on the active separator into separator-free directories that join back into PATH |
| Medea.ObtainEntries | src/lib.rs:42-86 | fails if and only if PATH is missing or not Unicode; otherwise returns each readable directory's readable decodable names, directories in PATH order |
| Medea.FreshProcessInitWriteOnce | src/lib.rs:21-38 | at process start the first init_entries succeeds and stores the corpus built with ':', and every later call fails |
| Medea.InitEachOnSetIndex | src/lib.rs:36-38 | once the index is set, any series of init_entries calls fails every time and leaves the statics unchanged |
| Medea.InitEntriesWriteOnce | src/lib.rs:36-38 | of a series of init_entries calls on a fresh index, the first returns Ok and its corpus is what stays stored; every later one returns Err |
| Medea.CollectThenIndex | src/lib.rs:30-46 | with separator-free names, the corpus stored after collecting from PATH splits on the shared separator back into exactly those names plus one empty piece |

## Left out

- `SuffixTable::new` belongs to an external suffix-array library whose code is not part of this model. The table is represented only by the text it was built over.
- `std::env::var`, `std::fs::read_dir`, `DirEntry::file_name` and `OsString::into_string` do I/O or OS-level decoding. They appear as given inputs: `EnvVar`, the `ReadDir` function and `OsString` values.
- The `multi-thread` feature (`par_iter`) is concurrency; only the sequential iterators are modelled.
- `OnceCell` thread synchronisation is modelled only as a sequential write-once slot; concurrent first-writer-wins races are not.
- The error messages built by `color_eyre` are not modelled; only the Ok/Err outcome and the cause of an environment error are kept.
- The crate-level lint attributes have no behaviour to model.
- A query operation over the index does not exist in this code, so it is not modelled.
- Corpus.Concat: lengths and offsets are in chars, not in the UTF-8 bytes a Rust `String` stores, because strings are modelled as sequences of chars.
