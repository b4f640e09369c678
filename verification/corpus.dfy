/** The delimited corpus that the name index is built over, and the splitting of
    a delimited string back into pieces. Strings are sequences of `char`, so
    every length and offset below counts chars, not UTF-8 bytes. */
module Corpus {

  /** The separator used when none has been configured. */
  const DefaultSeparator: char := ':'

  /** The room a list of entries takes in the corpus: every entry's length plus
      one terminating separator each. */
  function Footprint(entries: seq<string>): nat {
    if |entries| == 0 then 0 else |entries[0]| + 1 + Footprint(entries[1..])
  }

  /** True when no entry contains `sep`, so that separators in the corpus mark
      entry boundaries and nothing else. */
  predicate SeparatorFree(entries: seq<string>, sep: char) {
    forall k :: 0 <= k < |entries| ==> sep !in entries[k]
  }

  /** Every entry followed by `sep`, all entries end to end in order. */
  function Concat(entries: seq<string>, sep: char): (c: string)
    ensures |c| == Footprint(entries)
    ensures |entries| > 0 ==> c[|c| - 1] == sep
    ensures |entries| == 0 <==> c == []
  {
    if |entries| == 0 then [] else entries[0] + [sep] + Concat(entries[1..], sep)
  }

  /** The pieces joined end to end with one `sep` between neighbours. */
  function Join(pieces: seq<string>, sep: char): (s: string)
    requires |pieces| > 0
    ensures |s| + 1 == Footprint(pieces)
  {
    if |pieces| == 1 then pieces[0] else pieces[0] + [sep] + Join(pieces[1..], sep)
  }

  /** Rust's `str::split` on a single char: the maximal runs between separators,
      including empty runs at either end (so `""` splits to `[""]`). */
  function Split(s: string, sep: char): (pieces: seq<string>)
    ensures |pieces| > 0
    ensures SeparatorFree(pieces, sep)
    ensures Join(pieces, sep) == s
  {
    if |s| == 0 then [""]
    else
      var rest := Split(s[1..], sep);
      if s[0] == sep then
        assert ([""] + rest)[1..] == rest;
        [""] + rest
      else
        var pieces := [[s[0]] + rest[0]] + rest[1..];
        assert |rest| > 1 ==> pieces[1..] == rest[1..];
        assert s == [s[0]] + s[1..];
        pieces
  }

  /** The corpus of a list is the corpus of its first part followed by that of its second. */
  lemma {:induction false} ConcatAppend(a: seq<string>, b: seq<string>, sep: char)
    ensures Concat(a + b, sep) == Concat(a, sep) + Concat(b, sep)
  {
    if |a| == 0 {
      assert a + b == b;
    } else {
      assert (a + b)[1..] == a[1..] + b;
      ConcatAppend(a[1..], b, sep);
    }
  }

  /** Appending one entry appends that entry and one separator to the corpus. */
  lemma ConcatSnoc(entries: seq<string>, e: string, sep: char)
    ensures Concat(entries + [e], sep) == Concat(entries, sep) + e + [sep]
  {
    ConcatAppend(entries, [e], sep);
  }

  /** Entry `i` starts at the combined footprint of the entries before it and is
      immediately followed by `sep`. */
  lemma EntryPosition(entries: seq<string>, sep: char, i: nat)
    requires i < |entries|
    ensures Footprint(entries[..i]) + |entries[i]| < |Concat(entries, sep)|
    ensures Concat(entries, sep)[Footprint(entries[..i]) .. Footprint(entries[..i]) + |entries[i]|] == entries[i]
    ensures Concat(entries, sep)[Footprint(entries[..i]) + |entries[i]|] == sep
  {
    assert entries == entries[..i] + entries[i..];
    ConcatAppend(entries[..i], entries[i..], sep);
    var tail := entries[i..];
    assert Concat(tail, sep) == entries[i] + [sep] + Concat(tail[1..], sep);
  }

  /** The corpus is the entries followed by one empty piece, joined with `sep`. */
  lemma {:induction false} ConcatIsJoin(entries: seq<string>, sep: char)
    ensures Concat(entries, sep) == Join(entries + [""], sep)
  {
    if |entries| > 0 {
      assert (entries + [""])[1..] == entries[1..] + [""];
      ConcatIsJoin(entries[1..], sep);
    }
  }

  /** A string splits into itself alone exactly when it holds no `sep`; this
      follows from the contract of `Split` with one unfolding of `Join`. */
  lemma SplitSeparatorFree(s: string, sep: char)
    ensures Split(s, sep) == [s] <==> sep !in s
  {
  }

  /** Splitting stops at the first separator. */
  lemma {:induction false} SplitAtFirst(a: string, b: string, sep: char)
    requires sep !in a
    ensures Split(a + [sep] + b, sep) == [a] + Split(b, sep)
  {
    var s := a + [sep] + b;
    if |a| == 0 {
      assert s[1..] == b;
    } else {
      assert s[1..] == a[1..] + [sep] + b;
      SplitAtFirst(a[1..], b, sep);
      assert a == [a[0]] + a[1..];
    }
  }

  /** Splitting undoes joining, provided no piece contains the separator. */
  lemma {:induction false} SplitJoin(pieces: seq<string>, sep: char)
    requires |pieces| > 0
    requires SeparatorFree(pieces, sep)
    ensures Split(Join(pieces, sep), sep) == pieces
  {
    if |pieces| == 1 {
      SplitSeparatorFree(pieces[0], sep);
    } else {
      SplitJoin(pieces[1..], sep);
      SplitAtFirst(pieces[0], Join(pieces[1..], sep), sep);
      assert pieces == [pieces[0]] + pieces[1..];
    }
  }

  /** Splitting and joining are inverse: every string is the join of its pieces,
      and a separator-free list of pieces is the split of its join. */
  lemma {:induction false} SplitJoinInverse(s: string, pieces: seq<string>, sep: char)
    requires |pieces| > 0
    ensures Split(s, sep) == pieces <==> SeparatorFree(pieces, sep) && Join(pieces, sep) == s
  {
    if SeparatorFree(pieces, sep) && Join(pieces, sep) == s {
      SplitJoin(pieces, sep);
    }
  }

  /** Entry boundaries can be recovered: when no entry contains `sep`, splitting
      the corpus on `sep` gives back the entries in order followed by one empty
      trailing piece. */
  lemma {:induction false} CorpusRoundTrip(entries: seq<string>, sep: char)
    requires SeparatorFree(entries, sep)
    ensures Split(Concat(entries, sep), sep) == entries + [""]
  {
    ConcatIsJoin(entries, sep);
    SplitJoin(entries + [""], sep);
  }

  /** Builds the corpus the way the iterator chain does: each entry is formatted
      with its separator, broken into chars, and the chars of all entries are
      collected into one string. */
  method BuildCorpus(entries: seq<string>, sep: char) returns (c: string)
    ensures c == Concat(entries, sep)
  {
    c := [];
    for i := 0 to |entries|
      invariant c == Concat(entries[..i], sep)
    {
      var piece := entries[i] + [sep];
      for j := 0 to |piece|
        invariant c == Concat(entries[..i], sep) + piece[..j]
      {
        c := c + [piece[j]];
      }
      assert piece[..|piece|] == piece;
      assert entries[..i + 1] == entries[..i] + [entries[i]];
      ConcatSnoc(entries[..i], entries[i], sep);
    }
    assert entries[..|entries|] == entries;
  }
}
