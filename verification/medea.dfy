/** The library's public surface: the two process-wide write-once statics, the
    index initialisation and the search-path collection. The statics are an
    explicit record threaded through the operations. */
module Medea {
  import opened Types
  import opened OnceCells
  import opened Corpus
  import opened Collect

  /** The suffix table of the suffix-array library, whose construction is not
      modelled: it is represented by the text it was built over. */
  datatype SuffixTable = SuffixTable(text: string)

  /** `SEPARATOR` and `ENTRIES`, both unset when the process starts. */
  datatype Statics = Statics(separator: OnceCell<char>, entries: OnceCell<SuffixTable>)

  /** The error `init_entries` reports when the index is already set. */
  datatype InitError = AlreadyInitialized

  /** How reading the `PATH` variable turns out (`std::env::var`). */
  datatype EnvVar = NotPresent | NotUnicode(raw: seq<int>) | Present(value: string)

  /** The error `obtain_entries` reports when `PATH` cannot be read as text. */
  datatype EnvError = EnvError(cause: EnvVar)

  /** The statics at process start. */
  function InitialStatics(): (st: Statics)
    ensures !st.separator.IsSet() && !st.entries.IsSet()
  {
    Statics(OnceCell(None), OnceCell(None))
  }

  /** The separator in force: the configured one, or the default ':'. */
  function ActiveSeparator(st: Statics): (sep: char)
    ensures st.separator.IsSet() ==> sep == st.separator.slot.value
    ensures !st.separator.IsSet() ==> sep == DefaultSeparator
  {
    st.separator.slot.GetOr(DefaultSeparator)
  }

  /** Configuring the separator (`SEPARATOR.set`): write-once like the index,
      and it leaves the index alone. */
  function SetSeparator(st: Statics, sep: char): (r: (Statics, Result<(), char>))
    ensures r.0.entries == st.entries
    ensures r.0.separator.IsSet()
    ensures r.1.Ok? <==> !st.separator.IsSet()
    ensures !st.separator.IsSet() ==> r.0.separator.slot == Some(sep)
    ensures st.separator.IsSet() ==> r == (st, Err(sep))
    ensures ActiveSeparator(r.0) == if st.separator.IsSet() then ActiveSeparator(st) else sep
  {
    var (cell, res) := st.separator.Set(sep);
    (st.(separator := cell), res)
  }

  /** The separator is write-once: after a first `SetSeparator`, a second one
      fails, hands its char back, and leaves the statics, and so the separator
      in force, as the first call left them. */
  lemma SetSeparatorWriteOnce(st: Statics, first: char, second: char)
    requires !st.separator.IsSet()
    ensures SetSeparator(st, first).1 == Ok(())
    ensures ActiveSeparator(SetSeparator(st, first).0) == first
    ensures var st1 := SetSeparator(st, first).0;
            SetSeparator(st1, second) == (st1, Err(second))
            && ActiveSeparator(SetSeparator(st1, second).0) == first
  {
  }

  /** `init_entries`: build the corpus with the active separator, build the
      table over it, and store it in the write-once index slot. The first call
      succeeds; any later call fails and changes nothing. */
  function InitEntries(st: Statics, entries: seq<string>): (r: (Statics, Result<(), InitError>))
    ensures r.0.separator == st.separator
    ensures r.1.Ok? <==> !st.entries.IsSet()
    ensures !st.entries.IsSet() ==>
      r.0.entries.slot == Some(SuffixTable(Concat(entries, ActiveSeparator(st))))
    ensures st.entries.IsSet() ==> r.0 == st && r.1 == Err(AlreadyInitialized)
  {
    var table := SuffixTable(Concat(entries, ActiveSeparator(st)));
    var (cell, res) := st.entries.Set(table);
    match res
    case Ok(_) => (st.(entries := cell), Ok(()))
    case Err(_) => (st.(entries := cell), Err(AlreadyInitialized))
  }

  /** The directories of a `PATH` value, split on the active separator. */
  function SearchPath(st: Statics, path: string): (dirs: seq<string>)
    ensures |dirs| > 0
    ensures SeparatorFree(dirs, ActiveSeparator(st))
    ensures Join(dirs, ActiveSeparator(st)) == path
  {
    Split(path, ActiveSeparator(st))
  }

  /** `obtain_entries`: fails only when `PATH` is missing or not Unicode; an
      unreadable directory, a failed entry or an undecodable name is dropped. */
  function ObtainEntries(st: Statics, env: EnvVar, readDir: ReadDir): (r: Result<seq<string>, EnvError>)
    ensures r.Err? <==> !env.Present?
    ensures r.Err? ==> r.error.cause == env
    ensures r.Ok? ==> r.value == NamesInOrder(SearchPath(st, env.value), readDir)
  {
    match env
    case Present(path) =>
      var names := CollectNames(SearchPath(st, path), readDir);
      CollectNamesInOrder(SearchPath(st, path), readDir);
      Ok(names)
    case _ => Err(EnvError(env))
  }

  /** At process start the index accepts exactly one `init_entries`: the first
      stores the corpus built with the default separator ':', and every later
      call fails. */
  lemma {:induction false} FreshProcessInitWriteOnce(lists: seq<seq<string>>)
    requires |lists| > 0
    ensures InitEach(InitialStatics(), lists).1[0] == Ok(())
    ensures forall k :: 1 <= k < |lists| ==> InitEach(InitialStatics(), lists).1[k] == Err(AlreadyInitialized)
    ensures InitEach(InitialStatics(), lists).0.entries.slot
         == Some(SuffixTable(Concat(lists[0], DefaultSeparator)))
  {
    InitEntriesWriteOnce(InitialStatics(), lists);
  }

  /** Applies `InitEntries` with each list in turn, collecting the results. */
  function InitEach(st: Statics, lists: seq<seq<string>>): (r: (Statics, seq<Result<(), InitError>>))
    ensures |r.1| == |lists|
    decreases |lists|
  {
    if |lists| == 0 then (st, [])
    else
      var (st1, res) := InitEntries(st, lists[0]);
      var (st2, rest) := InitEach(st1, lists[1..]);
      (st2, [res] + rest)
  }

  lemma {:induction false} InitEachOnSetIndex(st: Statics, lists: seq<seq<string>>)
    requires st.entries.IsSet()
    ensures InitEach(st, lists).0 == st
    ensures forall k :: 0 <= k < |lists| ==> InitEach(st, lists).1[k] == Err(AlreadyInitialized)
  {
    if |lists| > 0 {
      InitEachOnSetIndex(st, lists[1..]);
      assert InitEach(st, lists).1 == [Err(AlreadyInitialized)] + InitEach(st, lists[1..]).1;
    }
  }

  /** The index is write-once: of any series of `init_entries` calls on a fresh
      index, the first succeeds and stores the corpus of its list; every later
      one fails, and the stored table stays the first one. */
  lemma {:induction false} InitEntriesWriteOnce(st: Statics, lists: seq<seq<string>>)
    requires !st.entries.IsSet()
    requires |lists| > 0
    ensures InitEach(st, lists).1[0] == Ok(())
    ensures forall k :: 1 <= k < |lists| ==> InitEach(st, lists).1[k] == Err(AlreadyInitialized)
    ensures InitEach(st, lists).0.entries.slot
         == Some(SuffixTable(Concat(lists[0], ActiveSeparator(st))))
    ensures InitEach(st, lists).0.separator == st.separator
  {
    var st1 := InitEntries(st, lists[0]).0;
    InitEachOnSetIndex(st1, lists[1..]);
    assert InitEach(st, lists).1 == [Ok(())] + InitEach(st1, lists[1..]).1;
  }

  /** Collection and indexing share one separator: when the names collected
      from `PATH` are free of it, the corpus stored by a first `init_entries`
      of those names splits on it back into exactly those names, in order,
      followed by one empty piece. */
  lemma CollectThenIndex(st: Statics, path: string, readDir: ReadDir)
    requires !st.entries.IsSet()
    requires SeparatorFree(NamesInOrder(SearchPath(st, path), readDir), ActiveSeparator(st))
    ensures ObtainEntries(st, Present(path), readDir).Ok?
    ensures var names := ObtainEntries(st, Present(path), readDir).value;
            var stored := InitEntries(st, names).0.entries.slot;
            stored.Some? && Split(stored.value.text, ActiveSeparator(st)) == names + [""]
  {
    var names := ObtainEntries(st, Present(path), readDir).value;
    CorpusRoundTrip(names, ActiveSeparator(st));
  }
}
