/** History evicted from the ring, kept in chunk files and read back in pages
    (crates/memmux-pty/src/chunkstore.rs). A chunk file is the list of lines it holds: the JSON
    and zstd layers and I/O failures are not part of this model. */
module History {
  import opened Prelude
  import opened Line
  import Radix

  datatype ChunkMeta = ChunkMeta(number: nat, lineCount: nat)

  /** The lines of the chunk files listed in `chunks`, in order. */
  function FileLines(files: map<nat, seq<StoredLine>>, chunks: seq<ChunkMeta>): seq<StoredLine> {
    if chunks == [] then []
    else
      var number := chunks[|chunks| - 1].number;
      FileLines(files, chunks[..|chunks| - 1]) + if number in files then files[number] else []
  }

  /** At most `n` lines from position `cursor` on; nothing past the end. */
  function Page(log: seq<StoredLine>, cursor: nat, n: nat): seq<StoredLine> {
    log[Min(cursor, |log|)..Min(cursor + n, |log|)]
  }

  lemma {:induction false} FilesUntouched(files: map<nat, seq<StoredLine>>, chunks: seq<ChunkMeta>,
                                          k: nat, lines: seq<StoredLine>)
    requires forall i :: 0 <= i < |chunks| ==> chunks[i].number != k
    ensures FileLines(files[k := lines], chunks) == FileLines(files, chunks)
  {
    if chunks != [] { FilesUntouched(files, chunks[..|chunks| - 1], k, lines); }
  }

  lemma {:induction false} FileLinesPrefix(files: map<nat, seq<StoredLine>>, chunks: seq<ChunkMeta>, i: nat)
    requires i <= |chunks|
    ensures FileLines(files, chunks[..i]) <= FileLines(files, chunks)
    decreases |chunks|
  {
    if i == |chunks| {
      assert chunks[..i] == chunks;
    } else {
      FileLinesPrefix(files, chunks[..|chunks| - 1], i);
      assert chunks[..|chunks| - 1][..i] == chunks[..i];
    }
  }

  /** A page taken from a longer log is completed from what was added at the end. */
  lemma PageAcross(log: seq<StoredLine>, more: seq<StoredLine>, cursor: nat, n: nat)
    ensures var taken := Page(log, cursor, n);
      Page(log + more, cursor, n)
        == taken + Page(more, SaturatingSub(cursor, |log|), SaturatingSub(n, |taken|))
  {
    if cursor <= |log| < cursor + n {
      SliceAcross(log, more, cursor, Min(cursor + n, |log + more|));
    } else if cursor <= |log| {
      SliceBefore(log, more, cursor, cursor + n);
    } else {
      SliceAfter(log, more, Min(cursor, |log + more|), Min(cursor + n, |log + more|));
    }
  }

  lemma SliceAcross(log: seq<StoredLine>, more: seq<StoredLine>, i: nat, j: nat)
    requires i <= |log| <= j <= |log + more|
    ensures (log + more)[i..j] == log[i..] + more[0..j - |log|]
  {
  }

  lemma SliceBefore(log: seq<StoredLine>, more: seq<StoredLine>, i: nat, j: nat)
    requires i <= j <= |log|
    ensures (log + more)[i..j] == log[i..j]
  {
  }

  lemma SliceAfter(log: seq<StoredLine>, more: seq<StoredLine>, i: nat, j: nat)
    requires |log| <= i <= j <= |log + more|
    ensures (log + more)[i..j] == more[i - |log|..j - |log|]
  {
  }

  /** The loop `read_history` runs over a chunk and over the unflushed tail: of `lines`, which
      start at position `base`, take those from `cursor` on until the page holds `n`. */
  method TakeInRange(lines: seq<StoredLine>, base: nat, cursor: nat, n: nat, taken: seq<StoredLine>)
    returns (out: seq<StoredLine>)
    ensures out == taken + Page(lines, SaturatingSub(cursor, base), SaturatingSub(n, |taken|))
  {
    var skip, room := SaturatingSub(cursor, base), SaturatingSub(n, |taken|);
    out := taken;
    for i := 0 to |lines|
      invariant out == taken + Page(lines[..i], skip, room)
    {
      PageAcross(lines[..i], [lines[i]], skip, room);
      assert lines[..i + 1] == lines[..i] + [lines[i]];
      if base + i >= cursor && |out| < n {
        out := out + [lines[i]];
      }
    }
    assert lines[..|lines|] == lines;
  }

  // ----- the store -----

  datatype StoreState = StoreState(
    files: map<nat, seq<StoredLine>>,
    pending: seq<StoredLine>,
    chunks: seq<ChunkMeta>,
    nextSeq: nat,
    totalLines: nat)
  {
    /** Every chunk has its own file, numbered in order, and the counts are true. */
    ghost predicate Valid() {
      && nextSeq == |chunks|
      && (forall i :: 0 <= i < |chunks| ==>
            chunks[i].number == i && i in files && chunks[i].lineCount == |files[i]| > 0)
      && totalLines == |Log()|
    }

    /** All lines ever appended. */
    function Log(): seq<StoredLine> {
      FileLines(files, chunks) + pending
    }
  }

  const EMPTY_STORE := StoreState(map[], [], [], 0, 0)

  function Flushed(st: StoreState): StoreState {
    if st.pending == [] then st
    else StoreState(st.files[st.nextSeq := st.pending], [], st.chunks + [ChunkMeta(st.nextSeq, |st.pending|)],
                    st.nextSeq + 1, st.totalLines)
  }

  function AppendedOne(chunkLines: nat, st: StoreState, line: StoredLine): StoreState {
    var grown := st.(pending := st.pending + [line], totalLines := st.totalLines + 1);
    if |grown.pending| >= chunkLines then Flushed(grown) else grown
  }

  function Appended(chunkLines: nat, st: StoreState, lines: seq<StoredLine>): StoreState {
    if lines == [] then st
    else AppendedOne(chunkLines, Appended(chunkLines, st, lines[..|lines| - 1]), lines[|lines| - 1])
  }

  /** Writing the pending lines to a chunk keeps the log. */
  lemma FlushedKeepsLog(st: StoreState)
    requires st.Valid()
    ensures Flushed(st).Valid() && Flushed(st).Log() == st.Log() && Flushed(st).pending == []
    ensures |Flushed(st).chunks| == |st.chunks| + if st.pending == [] then 0 else 1
  {
    if st.pending != [] {
      var after := Flushed(st);
      assert after.chunks[..|st.chunks|] == st.chunks;
      FilesUntouched(st.files, st.chunks, st.nextSeq, st.pending);
      assert after.Log() == st.Log();
    }
  }

  lemma GrownIsValid(st: StoreState, line: StoredLine)
    requires st.Valid()
    ensures var grown := st.(pending := st.pending + [line], totalLines := st.totalLines + 1);
      grown.Valid() && grown.Log() == st.Log() + [line]
  {
    assert FileLines(st.files, st.chunks) + (st.pending + [line]) == st.Log() + [line];
  }

  lemma AppendedOneLog(chunkLines: nat, st: StoreState, line: StoredLine)
    requires chunkLines >= 1 && st.Valid()
    ensures var after := AppendedOne(chunkLines, st, line);
      after.Valid() && after.Log() == st.Log() + [line] && |after.pending| < chunkLines
  {
    var grown := st.(pending := st.pending + [line], totalLines := st.totalLines + 1);
    hide Flushed, st.Valid, st.Log;
    GrownIsValid(st, line);
    FlushedKeepsLog(grown);
  }

  /** The log grows by exactly the appended lines, and a full chunk never stays in memory. */
  lemma {:induction false} AppendedLog(chunkLines: nat, st: StoreState, lines: seq<StoredLine>)
    requires chunkLines >= 1 && st.Valid()
    ensures var after := Appended(chunkLines, st, lines);
      && after.Valid() && after.Log() == st.Log() + lines
      && (lines != [] || |st.pending| < chunkLines ==> |after.pending| < chunkLines)
  {
    hide AppendedOne, st.Valid, st.Log;
    if lines == [] {
      assert st.Log() + [] == st.Log();
    } else {
      var n := |lines| - 1;
      AppendedLog(chunkLines, st, lines[..n]);
      AppendedOneLog(chunkLines, Appended(chunkLines, st, lines[..n]), lines[n]);
      assert lines == lines[..n] + [lines[n]];
      assert st.Log() + lines == st.Log() + lines[..n] + [lines[n]];
    }
  }

  /** Chunks are written when they are full and not before: appending adds one chunk for every
      `chunkLines` lines, counting those that were waiting, each of that many lines, and the rest waits. */
  lemma {:induction false} ChunksAreFull(chunkLines: nat, st: StoreState, lines: seq<StoredLine>)
    requires chunkLines >= 1 && st.Valid() && |st.pending| < chunkLines
    ensures var after := Appended(chunkLines, st, lines);
      && |after.chunks| == |st.chunks| + (|st.pending| + |lines|) / chunkLines
      && |after.pending| == (|st.pending| + |lines|) % chunkLines
      && st.chunks <= after.chunks
      && forall i :: |st.chunks| <= i < |after.chunks| ==> after.chunks[i].lineCount == chunkLines
  {
    hide st.Valid, st.Log;
    var waiting := |st.pending|;
    if lines == [] {
      Radix.ModUnique(waiting, chunkLines, 0, waiting);
    } else {
      var n := |lines| - 1;
      ChunksAreFull(chunkLines, st, lines[..n]);
      Radix.NextQuotient(waiting + n, chunkLines);
    }
  }

  class ChunkStore {
    const chunkLines: nat
    var files: map<nat, seq<StoredLine>>
    var pending: seq<StoredLine>
    var chunks: seq<ChunkMeta>
    var nextSeq: nat
    var totalLines: nat

    function State(): StoreState
      reads this
    {
      StoreState(files, pending, chunks, nextSeq, totalLines)
    }

    ghost predicate Valid()
      reads this
    {
      chunkLines >= 1 && State().Valid()
    }

    constructor (chunkLines: nat)
      ensures Valid() && State() == EMPTY_STORE && this.chunkLines == Max(chunkLines, 1)
    {
      this.chunkLines := Max(chunkLines, 1);
      files, pending, chunks, nextSeq, totalLines := map[], [], [], 0, 0;
    }

    method FlushChunk()
      requires Valid()
      modifies this
      ensures Valid() && State() == Flushed(old(State())) && State().Log() == old(State().Log())
    {
      FlushedKeepsLog(State());
      if pending == [] {
        return;
      }
      var number := nextSeq;
      nextSeq := nextSeq + 1;
      files := files[number := pending];
      chunks := chunks + [ChunkMeta(number, |pending|)];
      pending := [];
    }

    method Append(lines: seq<StoredLine>)
      requires Valid()
      modifies this
      ensures Valid() && State() == Appended(chunkLines, old(State()), lines)
      ensures State().Log() == old(State().Log()) + lines
      ensures lines != [] || |old(pending)| < chunkLines ==> |pending| < chunkLines
    {
      ghost var start := State();
      for i := 0 to |lines|
        invariant Valid() && State() == Appended(chunkLines, start, lines[..i])
      {
        assert lines[..i + 1][..i] == lines[..i];
        GrownIsValid(State(), lines[i]);
        pending := pending + [lines[i]];
        totalLines := totalLines + 1;
        if |pending| >= chunkLines {
          FlushChunk();
        }
      }
      assert lines[..|lines|] == lines;
      AppendedLog(chunkLines, start, lines);
    }

    /** A page is the slice of the log it names, whatever the chunk size and the flush points.
        Chunks that end before the cursor, or come after the page is full, are not read. */
    method ReadHistory(cursor: nat, n: nat) returns (out: seq<StoredLine>)
      requires Valid()
      ensures out == Page(State().Log(), cursor, n)
    {
      hide Page;
      ghost var read := [];
      out := [];
      PageOfNothing(cursor, n);
      var base := 0;
      var c := 0;
      while c < |chunks|
        invariant c <= |chunks|
        invariant read == FileLines(files, chunks[..c]) && base == |read|
        invariant out == Page(read, cursor, n)
      {
        var meta := chunks[c];
        var chunkEnd := base + meta.lineCount;
        if |out| >= n {
          break;
        }
        assert chunks[..c + 1][..c] == chunks[..c];
        PageAcross(read, files[meta.number], cursor, n);
        if chunkEnd > cursor {
          out := TakeInRange(files[meta.number], base, cursor, n, out);
        } else {
          PagePastEnd(files[meta.number], SaturatingSub(cursor, base), SaturatingSub(n, |out|));
        }
        read := read + files[meta.number];
        base := chunkEnd;
        c := c + 1;
      }
      ghost var unread := RestOfFiles(c);
      if c == |chunks| {
        assert unread == [] && read + unread == read;
      } else {
        PageAcross(read, unread, cursor, n);
        FullPage(unread, SaturatingSub(cursor, |read|));
        FullPage(pending, SaturatingSub(cursor, base));
        FullPage(pending, SaturatingSub(cursor, |read + unread|));
      }
      PageAcross(read + unread, pending, cursor, n);
      out := TakeInRange(pending, base, cursor, n, out);
    }

    lemma RestOfFiles(c: nat) returns (rest: seq<StoredLine>)
      requires Valid() && c <= |chunks|
      ensures FileLines(files, chunks[..c]) + rest == FileLines(files, chunks)
      ensures c == |chunks| ==> rest == []
    {
      FileLinesPrefix(files, chunks, c);
      rest := FileLines(files, chunks)[|FileLines(files, chunks[..c])|..];
      assert c == |chunks| ==> chunks[..c] == chunks;
    }
  }

  lemma PageOfNothing(cursor: nat, n: nat)
    ensures Page([], cursor, n) == []
  {
  }

  lemma PagePastEnd(lines: seq<StoredLine>, cursor: nat, n: nat)
    requires cursor >= |lines|
    ensures Page(lines, cursor, n) == []
  {
  }

  lemma FullPage(lines: seq<StoredLine>, cursor: nat)
    ensures Page(lines, cursor, 0) == []
  {
  }

  // ----- paging -----

  /** Consecutive pages fit together: a page is the first part followed by the rest. */
  lemma PagesCompose(log: seq<StoredLine>, cursor: nat, m: nat, n: nat)
    ensures Page(log, cursor, m + n) == Page(log, cursor, m) + Page(log, cursor + m, n)
  {
    if cursor + m <= |log| {
      var end := Min(cursor + m + n, |log|);
      assert log[cursor..end] == log[cursor..cursor + m] + log[cursor + m..end];
    }
  }

  /** Successive pages of `n` lines from `cursor` on, until one comes back empty. */
  function PagesFrom(log: seq<StoredLine>, cursor: nat, n: nat): seq<StoredLine>
    requires n >= 1
    decreases |log| - cursor
  {
    var page := Page(log, cursor, n);
    if page == [] then [] else page + PagesFrom(log, cursor + |page|, n)
  }

  /** Reading page after page from the start rebuilds the log. */
  lemma {:induction false} PagingRebuildsLog(log: seq<StoredLine>, cursor: nat, n: nat)
    requires n >= 1 && cursor <= |log|
    ensures PagesFrom(log, cursor, n) == log[cursor..]
    decreases |log| - cursor
  {
    var page := Page(log, cursor, n);
    if page != [] {
      PagingRebuildsLog(log, cursor + |page|, n);
      assert log[cursor..] == page + log[cursor + |page|..];
    }
  }
}
