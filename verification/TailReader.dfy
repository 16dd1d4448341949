/** Reading the last rows of a row-per-line file from its end, in fixed-size chunks. */
module TailReader {
  import opened Lines
  import opened Optional

  newtype byte = x: int | 0 <= x < 256

  const LF: byte := 10
  const CR: byte := 13
  const BYTE_BREAKS: Breaks<byte> := Breaks(CR, LF, {})
  const CHUNK := 64 * 1024

  function Concat(chunks: seq<seq<byte>>): seq<byte> {
    if chunks == [] then [] else chunks[0] + Concat(chunks[1..])
  }

  /** The chunks were collected from the end of the file backwards. */
  function Reversed(chunks: seq<seq<byte>>): seq<seq<byte>> {
    if chunks == [] then [] else Reversed(chunks[1..]) + [chunks[0]]
  }

  lemma {:induction false} ReversedGrows(chunks: seq<seq<byte>>, chunk: seq<byte>)
    ensures Reversed(chunks + [chunk]) == [chunk] + Reversed(chunks)
  {
    if chunks == [] {
      assert [chunk][1..] == [];
    } else {
      assert (chunks + [chunk])[1..] == chunks[1..] + [chunk];
      ReversedGrows(chunks[1..], chunk);
    }
  }

  lemma PrependChunk(chunks: seq<seq<byte>>, chunk: seq<byte>)
    ensures Concat(Reversed(chunks + [chunk])) == chunk + Concat(Reversed(chunks))
  {
    ReversedGrows(chunks, chunk);
    assert ([chunk] + Reversed(chunks))[1..] == Reversed(chunks);
  }

  lemma ShorterSuffixCountsLess(file: seq<byte>, i: nat, j: nat)
    requires i <= j <= |file|
    ensures Count(file[j..], LF) <= Count(file[i..], LF)
  {
    assert file[i..] == file[i..j] + file[j..];
    CountSplits(file[i..j], file[j..], LF);
  }

  lemma NoLineFeeds(text: seq<byte>)
    requires text == []
    ensures Count(text, LF) == 0
  {
  }

  /** Reads backwards until more than `maxRows` line feeds, or the start of the file, have been seen,
      and no chunk further than that. */
  method ReadTail(file: seq<byte>, maxRows: nat) returns (tail: seq<byte>, position: nat)
    ensures position <= |file| && tail == file[position..]
    ensures position == 0 || Count(tail, LF) > maxRows
    ensures position + CHUNK <= |file| ==> Count(file[position + CHUNK..], LF) <= maxRows
  {
    hide Count;
    NoLineFeeds(file[|file|..]);
    var chunks: seq<seq<byte>> := [];
    var newlineCount := 0;
    var at: nat := |file|;
    while at > 0 && newlineCount <= maxRows
      invariant at <= |file|
      invariant Concat(Reversed(chunks)) == file[at..]
      invariant newlineCount == Count(file[at..], LF)
      invariant at + CHUNK <= |file| ==> Count(file[at + CHUNK..], LF) <= maxRows
    {
      var size := if CHUNK <= at then CHUNK else at;
      var chunk := file[at - size..at];
      PrependChunk(chunks, chunk);
      CountSplits(chunk, file[at..], LF);
      assert chunk + file[at..] == file[at - size..];
      if at - size + CHUNK <= |file| {
        ShorterSuffixCountsLess(file, at, at - size + CHUNK);
      }
      at := at - size;
      chunks := chunks + [chunk];
      newlineCount := newlineCount + Count(chunk, LF);
    }
    tail := Concat(Reversed(chunks));
    position := at;
  }

  /** The row a line decodes to, if it does. */
  function RowOf<R>(decode: seq<byte> -> Option<R>, line: seq<byte>): seq<R> {
    match decode(line) case Some(row) => [row] case None => []
  }

  /** The rows decoded from the lines; a line that does not decode is skipped. */
  function Rows<R>(decode: seq<byte> -> Option<R>, lines: seq<seq<byte>>): seq<R> {
    if lines == [] then [] else RowOf(decode, lines[0]) + Rows(decode, lines[1..])
  }

  lemma {:induction false} RowsGrow<R>(decode: seq<byte> -> Option<R>, lines: seq<seq<byte>>, line: seq<byte>)
    ensures Rows(decode, lines + [line]) == Rows(decode, lines) + RowOf(decode, line)
  {
    hide RowOf;
    var all := lines + [line];
    if lines == [] {
      assert all[0] == line && all[1..] == [];
      assert Rows(decode, all) == RowOf(decode, line) + Rows(decode, []);
    } else {
      assert all[0] == lines[0] && all[1..] == lines[1..] + [line];
      RowsGrow(decode, lines[1..], line);
    }
  }

  /** What the whole file, split at once, has for its last `maxRows` lines; a missing file has none. */
  function LastRows<R>(decode: seq<byte> -> Option<R>, file: Option<seq<byte>>, maxRows: int): seq<R> {
    if maxRows <= 0 || file.None? then []
    else Rows(decode, Last(SplitLines(BYTE_BREAKS, file.value), maxRows))
  }

  method RecentRows<R>(decode: seq<byte> -> Option<R>, file: Option<seq<byte>>, maxRows: int) returns (rows: seq<R>)
    ensures rows == LastRows(decode, file, maxRows)
  {
    hide SplitLines, Count, Last, Rows;
    if maxRows <= 0 || file.None? {
      return [];
    }
    var tail, position := ReadTail(file.value, maxRows);
    assert file.value == file.value[..position] + tail;
    if position > 0 {
      LastLinesOfSuffix(BYTE_BREAKS, file.value[..position], tail, maxRows);
    }
    rows := DecodeRows(decode, Last(SplitLines(BYTE_BREAKS, tail), maxRows));
  }

  method DecodeRows<R>(decode: seq<byte> -> Option<R>, lines: seq<seq<byte>>) returns (rows: seq<R>)
    ensures rows == Rows(decode, lines)
  {
    hide Rows;
    rows := [];
    NoRows(decode, lines[..0]);
    for i := 0 to |lines|
      invariant rows == Rows(decode, lines[..i])
    {
      RowsGrow(decode, lines[..i], lines[i]);
      assert lines[..i + 1] == lines[..i] + [lines[i]];
      match decode(lines[i]) {
        case Some(row) => rows := rows + [row];
        case None =>
      }
    }
    assert lines[..|lines|] == lines;
  }

  lemma NoRows<R>(decode: seq<byte> -> Option<R>, lines: seq<seq<byte>>)
    requires lines == []
    ensures Rows(decode, lines) == []
  {
  }

  /** `rows` are what the lines at these positions decode to, in order: exactly the lines that decode. */
  ghost predicate DecodedAt<R>(decode: seq<byte> -> Option<R>, lines: seq<seq<byte>>, rows: seq<R>, at: seq<nat>) {
    && |at| == |rows|
    && (forall k :: 0 <= k < |at| ==> at[k] < |lines| && decode(lines[at[k]]) == Some(rows[k]))
    && (forall j, k :: 0 <= j < k < |at| ==> at[j] < at[k])
    && forall i: nat :: i < |lines| && decode(lines[i]).Some? ==> i in at
  }

  lemma {:induction false} RowsInOrder<R>(decode: seq<byte> -> Option<R>, lines: seq<seq<byte>>) returns (at: seq<nat>)
    ensures DecodedAt(decode, lines, Rows(decode, lines), at)
  {
    if lines == [] {
      at := [];
    } else {
      var n := |lines| - 1;
      var front, line := lines[..n], lines[n];
      at := RowsInOrder(decode, front);
      assert lines == front + [line];
      RowsGrow(decode, front, line);
      DecodeOne(decode, front, line, Rows(decode, front), at);
      if decode(line).Some? {
        at := at + [n];
      } else {
        assert Rows(decode, front) + [] == Rows(decode, front);
      }
    }
  }

  lemma DecodeOne<R>(
    decode: seq<byte> -> Option<R>, lines: seq<seq<byte>>, line: seq<byte>, rows: seq<R>, at: seq<nat>)
    requires DecodedAt(decode, lines, rows, at)
    ensures match decode(line)
            case Some(row) => DecodedAt(decode, lines + [line], rows + [row], at + [|lines|])
            case None => DecodedAt(decode, lines + [line], rows, at)
  {
    var all, more := lines + [line], at + [|lines|];
    forall i: nat | i < |all| && decode(all[i]).Some? ensures i in if decode(line).Some? then more else at {
      if i < |lines| {
        assert all[i] == lines[i] && i in at;
      } else {
        assert more[|at|] == i;
      }
    }
  }

  /** What is read back: the lines are cut at line feeds, carriage returns or both together; of the last
      `maxRows` of them, or of all when there are fewer, those that decode are decoded in order. */
  lemma RecentRowsExactly<R>(decode: seq<byte> -> Option<R>, file: seq<byte>, maxRows: nat)
    returns (starts: seq<nat>, lines: seq<seq<byte>>, last: seq<seq<byte>>, at: seq<nat>)
    requires maxRows > 0
    ensures LinesFrom(Breaks(13, 10, {}), file, 0, starts, lines)
    ensures |last| == (if maxRows < |lines| then maxRows else |lines|) && last == lines[|lines| - |last|..]
    ensures DecodedAt(decode, last, LastRows(decode, Some(file), maxRows), at)
  {
    hide SplitLines, Rows;
    assert file[0..] == file;
    starts := SplitsAtEndings(BYTE_BREAKS, file, 0);
    lines := SplitLines(BYTE_BREAKS, file);
    last := Last(lines, maxRows);
    at := RowsInOrder(decode, last);
  }

  /** A row appended with its line feed to a file of complete lines is the last one read back. */
  lemma AppendedRowIsLast<R>(decode: seq<byte> -> Option<R>, file: seq<byte>, line: seq<byte>, maxRows: int)
    requires file == [] || file[|file| - 1] == LF
    requires LF !in line && CR !in line
    requires maxRows > 0 && decode(line).Some?
    ensures var rows := LastRows(decode, Some(file + (line + [LF])), maxRows);
            rows != [] && rows[|rows| - 1] == decode(line).value
  {
    hide Rows;
    AppendedLine(BYTE_BREAKS, file, line);
    var lines := Last(SplitLines(BYTE_BREAKS, file) + [line], maxRows);
    assert lines == lines[..|lines| - 1] + [line];
    RowsGrow(decode, lines[..|lines| - 1], line);
  }
}
