/** The unit of stored terminal output (crates/memmux-pty/src/line.rs). */
module Line {
  import opened Prelude

  const LINE_OVERHEAD_BYTES: nat := 24

  datatype StoredLine =
    | Text(text: Bytes)
    | Repeated(text: Bytes, count: nat)
    | Truncated(head: Bytes, fullBytes: nat, artifactRef: string)
  {
    function ResidentBytes(): nat {
      LINE_OVERHEAD_BYTES +
      match this
      case Text(text) => |text|
      case Repeated(text, _) => |text|
      case Truncated(head, _, ref) => |head| + |ref|
    }

    function RenderedRows(): nat {
      if Repeated? then count else 1
    }

    /** The text two lines are compared by; a truncated line never collapses. */
    function CollapseKey(): Option<Bytes> {
      if Truncated? then None else Some(text)
    }

    /** A line as it enters the ring: one terminal row, not yet a run. */
    predicate Plain() { !Repeated? }
  }

  predicate SameKey(a: StoredLine, b: StoredLine) {
    a.CollapseKey().Some? && a.CollapseKey() == b.CollapseKey()
  }

  function SumBytes(lines: seq<StoredLine>): nat {
    if lines == [] then 0 else lines[0].ResidentBytes() + SumBytes(lines[1..])
  }

  function SumRows(lines: seq<StoredLine>): nat {
    if lines == [] then 0 else lines[0].RenderedRows() + SumRows(lines[1..])
  }

  lemma {:induction false} SumBytesAppend(a: seq<StoredLine>, b: seq<StoredLine>)
    ensures SumBytes(a + b) == SumBytes(a) + SumBytes(b)
  {
    if a == [] {
      assert a + b == b;
    } else {
      assert (a + b)[1..] == a[1..] + b;
      SumBytesAppend(a[1..], b);
    }
  }

  // ----- the text held -----

  /** The text of all entries end to end; of a cut line, the part that was kept. */
  function TextHeld(lines: seq<StoredLine>): Bytes {
    if lines == [] then []
    else
      var last := lines[|lines| - 1];
      TextHeld(lines[..|lines| - 1]) + if last.Truncated? then last.head else last.text
  }

  /** The artifact names of the cut lines among them, end to end. */
  function NamesHeld(lines: seq<StoredLine>): string {
    if lines == [] then []
    else
      var last := lines[|lines| - 1];
      NamesHeld(lines[..|lines| - 1]) + if last.Truncated? then last.artifactRef else ""
  }

  lemma HeldSnoc(lines: seq<StoredLine>, e: StoredLine)
    ensures TextHeld(lines + [e]) == TextHeld(lines) + if e.Truncated? then e.head else e.text
    ensures NamesHeld(lines + [e]) == NamesHeld(lines) + if e.Truncated? then e.artifactRef else ""
  {
    assert (lines + [e])[..|lines|] == lines;
  }

  /** The memory of some entries: 24 bytes for each, and the text. */
  function BytesHeld(lines: seq<StoredLine>): nat {
    24 * |lines| + |TextHeld(lines)| + |NamesHeld(lines)|
  }

  lemma {:induction false} SumBytesIsHeld(lines: seq<StoredLine>)
    ensures SumBytes(lines) == BytesHeld(lines)
  {
    if lines != [] {
      var n := |lines| - 1;
      SumBytesIsHeld(lines[..n]);
      SumBytesAppend(lines[..n], [lines[n]]);
      assert lines == lines[..n] + [lines[n]];
      assert SumBytes([lines[n]]) == lines[n].ResidentBytes();
    }
  }

  lemma {:induction false} SumRowsAppend(a: seq<StoredLine>, b: seq<StoredLine>)
    ensures SumRows(a + b) == SumRows(a) + SumRows(b)
  {
    if a == [] {
      assert a + b == b;
    } else {
      assert (a + b)[1..] == a[1..] + b;
      SumRowsAppend(a[1..], b);
    }
  }

  /** The single lines an entry stands for, oldest first. */
  function Unfold(e: StoredLine): seq<StoredLine> {
    if e.Repeated? then seq(e.count, _ => Text(e.text)) else [e]
  }

  function Expand(log: seq<StoredLine>): seq<StoredLine> {
    if log == [] then [] else Expand(log[..|log| - 1]) + Unfold(log[|log| - 1])
  }

  lemma ExpandSnoc(log: seq<StoredLine>, e: StoredLine)
    ensures Expand(log + [e]) == Expand(log) + Unfold(e)
  {
    assert (log + [e])[..|log|] == log;
  }

  lemma {:induction false} ExpandRows(log: seq<StoredLine>)
    ensures |Expand(log)| == SumRows(log)
  {
    if log != [] {
      var n := |log| - 1;
      ExpandRows(log[..n]);
      SumRowsAppend(log[..n], log[n..]);
      assert log == log[..n] + log[n..];
      assert log[n..] == [log[n]];
    }
  }
}
