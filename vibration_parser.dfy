/**
 * The lenient CSV reader behind `parseVibrationData`: split the fetched
 * text into lines, skip the header line, trim each remaining line, split it
 * on commas and keep the lines that have exactly four fields, in order.
 *
 * Fetching is outside the model: the response is an `Option<string>`,
 * `None` standing for a failed fetch or body read. Turning a field into a
 * number (`parseInt`, `parseFloat`) is a pair of function parameters.
 */
module VibrationParser {
  import opened Samples
  import opened JsText

  datatype Option<T> = None | Some(value: T)

  type Fields = seq<string>

  const FieldsPerRow: nat := 4

  /** `text.split('\n')`: joining the lines with newlines gives the text back. */
  function Lines(text: string): (lines: seq<string>)
    ensures |lines| >= 1 && Join(lines, '\n') == text
  {
    JoinSplit(text, '\n');
    Split(text, '\n')
  }

  /** `line.trim().split(',')`: the comma-separated pieces of the trimmed line. */
  function LineFields(line: string): (fields: Fields)
    ensures |fields| == multiset(Trim(line))[','] + 1
  {
    SplitPieces(Trim(line), ',');
    Split(Trim(line), ',')
  }

  /** Joining a line's fields with commas gives back the trimmed line. */
  lemma LineFieldsJoin(line: string)
    ensures Join(LineFields(line), ',') == Trim(line)
  {
    JoinSplit(Trim(line), ',');
  }

  /** The fields of every line, in order. */
  function FieldLists(lines: seq<string>): (rows: seq<Fields>)
    ensures |rows| == |lines|
    ensures forall i :: 0 <= i < |lines| ==> rows[i] == LineFields(lines[i])
  {
    seq(|lines|, i requires 0 <= i < |lines| => LineFields(lines[i]))
  }

  /** The rows that have exactly four fields, in the order they come. */
  function KeepRows(rows: seq<Fields>): (kept: seq<Fields>)
    ensures |kept| <= |rows|
    ensures forall k :: 0 <= k < |kept| ==> |kept[k]| == FieldsPerRow
  {
    if rows == [] then []
    else
      var last := rows[|rows| - 1];
      KeepRows(rows[..|rows| - 1]) + (if |last| == FieldsPerRow then [last] else [])
  }

  /** The rows the reader keeps: those of every line but the first. */
  function DataRows(text: string): (rows: seq<Fields>)
    ensures |rows| <= |Lines(text)| - 1
    ensures forall k :: 0 <= k < |rows| ==> |rows[k]| == FieldsPerRow
  {
    KeepRows(FieldLists(Lines(text)[1..]))
  }

  /**
   * One sample from a four-field row: time first, then x, y and z. The time
   * comes from `parseInt`, so it is always a whole number.
   */
  function ToSample(f: Fields, parseTime: string -> int, parseCoord: string -> real): (sample: Sample)
    requires |f| == FieldsPerRow
    ensures sample.time == sample.time.Floor as real
  {
    Sample(parseTime(f[0]) as real, parseCoord(f[1]), parseCoord(f[2]), parseCoord(f[3]))
  }

  /** One sample per row, in order. */
  function DecodeRows(rows: seq<Fields>, parseTime: string -> int, parseCoord: string -> real): (data: seq<Sample>)
    requires forall k :: 0 <= k < |rows| ==> |rows[k]| == FieldsPerRow
    ensures |data| == |rows|
    ensures forall k :: 0 <= k < |rows| ==> data[k] == ToSample(rows[k], parseTime, parseCoord)
  {
    if rows == [] then []
    else DecodeRows(rows[..|rows| - 1], parseTime, parseCoord) + [ToSample(rows[|rows| - 1], parseTime, parseCoord)]
  }

  /** The reader: one sample per kept row, or nothing when the text could not be fetched. */
  method ParseVibrationData(response: Option<string>, parseTime: string -> int, parseCoord: string -> real)
    returns (data: seq<Sample>)
    ensures response.None? ==> data == []
    ensures response.Some? ==> data == DecodeRows(DataRows(response.value), parseTime, parseCoord)
  {
    if response.None? {
      return [];
    }
    var text := response.value;
    var rows := Split(text, '\n');
    data := [];
    for i := 1 to |rows|
      invariant data == DecodeRows(KeepRows(FieldLists(rows[1..i])), parseTime, parseCoord)
    {
      var values := LineFields(rows[i]);
      ReadStep(rows, i, parseTime, parseCoord);
      if |values| == FieldsPerRow {
        data := data + [ToSample(values, parseTime, parseCoord)];
      }
    }
    assert rows[1..|rows|] == rows[1..];
  }

  /** What one iteration of the reader's loop adds to the samples read so far. */
  lemma ReadStep(rows: seq<string>, i: int, parseTime: string -> int, parseCoord: string -> real)
    requires 1 <= i < |rows|
    ensures var values := LineFields(rows[i]);
      DecodeRows(KeepRows(FieldLists(rows[1..i + 1])), parseTime, parseCoord) ==
      DecodeRows(KeepRows(FieldLists(rows[1..i])), parseTime, parseCoord) +
      (if |values| == FieldsPerRow then [ToSample(values, parseTime, parseCoord)] else [])
  {
    var values := LineFields(rows[i]);
    var kept := KeepRows(FieldLists(rows[1..i]));
    FieldListsStep(rows, i);
    KeepRowsStep(FieldLists(rows[1..i]), values);
    if |values| == FieldsPerRow {
      assert (kept + [values])[..|kept|] == kept;
    }
  }

  // ---------------------------------------------------------------------
  // Filtering: rows are kept or dropped one by one.

  /** Filtering a concatenation filters each part. */
  lemma {:induction false} KeepRowsAppend(a: seq<Fields>, b: seq<Fields>)
    ensures KeepRows(a + b) == KeepRows(a) + KeepRows(b)
  {
    if b == [] {
      assert a + b == a;
    } else {
      var b' := b[..|b| - 1];
      KeepRowsAppend(a, b');
      assert (a + b)[..|a + b| - 1] == a + b';
      assert (a + b)[|a + b| - 1] == b[|b| - 1];
    }
  }

  lemma FieldListsAppend(a: seq<string>, b: seq<string>)
    ensures FieldLists(a + b) == FieldLists(a) + FieldLists(b)
  {
    assert forall i :: 0 <= i < |a| ==> (a + b)[i] == a[i];
    assert forall i :: |a| <= i < |a| + |b| ==> (a + b)[i] == b[i - |a|];
  }

  /** One more row is kept exactly when it has four fields. */
  lemma KeepRowsStep(rows: seq<Fields>, r: Fields)
    ensures KeepRows(rows + [r]) == KeepRows(rows) + (if |r| == FieldsPerRow then [r] else [])
  {
    assert (rows + [r])[..|rows|] == rows;
  }

  lemma FieldListsStep(lines: seq<string>, i: int)
    requires 1 <= i < |lines|
    ensures FieldLists(lines[1..i + 1]) == FieldLists(lines[1..i]) + [LineFields(lines[i])]
  {
    assert lines[1..i + 1] == lines[1..i] + [lines[i]];
    FieldListsAppend(lines[1..i], [lines[i]]);
  }

  /** A row with other than four fields is dropped and the rows around it are unaffected. */
  lemma ShortRowIsInvisible(a: seq<Fields>, r: Fields, b: seq<Fields>)
    requires |r| != FieldsPerRow
    ensures KeepRows(a + [r] + b) == KeepRows(a + b)
  {
    KeepRowsAppend(a + [r], b);
    KeepRowsStep(a, r);
    KeepRowsAppend(a, b);
  }

  /** A row with four fields is kept between the rows around it. */
  lemma FullRowInPlace(a: seq<Fields>, r: Fields, b: seq<Fields>)
    requires |r| == FieldsPerRow
    ensures KeepRows(a + [r] + b) == KeepRows(a) + [r] + KeepRows(b)
  {
    KeepRowsAppend(a + [r], b);
    KeepRowsStep(a, r);
  }

  /** A line with other than four fields is dropped and the other lines are unaffected. */
  lemma DroppedLineIsInvisible(a: seq<string>, line: string, b: seq<string>)
    requires |LineFields(line)| != FieldsPerRow
    ensures KeepRows(FieldLists(a + [line] + b)) == KeepRows(FieldLists(a + b))
  {
    var fa, f, fb := FieldLists(a), LineFields(line), FieldLists(b);
    assert FieldLists([line]) == [f];
    FieldListsAppend(a, [line]);
    FieldListsAppend(a + [line], b);
    FieldListsAppend(a, b);
    assert FieldLists(a + [line] + b) == fa + [f] + fb;
    ShortRowIsInvisible(fa, f, fb);
  }

  /** A line with four fields contributes its fields, between those of the lines around it. */
  lemma KeptLineInPlace(a: seq<string>, line: string, b: seq<string>)
    requires |LineFields(line)| == FieldsPerRow
    ensures KeepRows(FieldLists(a + [line] + b)) ==
      KeepRows(FieldLists(a)) + [LineFields(line)] + KeepRows(FieldLists(b))
  {
    var fa, f, fb := FieldLists(a), LineFields(line), FieldLists(b);
    assert FieldLists([line]) == [f];
    FieldListsAppend(a, [line]);
    FieldListsAppend(a + [line], b);
    assert FieldLists(a + [line] + b) == fa + [f] + fb;
    FullRowInPlace(fa, f, fb);
  }

  // ---------------------------------------------------------------------
  // Reference definition: the kept rows are the four-field rows, by index.

  /** The indices of the four-field rows, ascending and complete. */
  function KeptIndices(rows: seq<Fields>): (idx: seq<nat>)
    ensures forall k :: 0 <= k < |idx| ==> idx[k] < |rows| && |rows[idx[k]]| == FieldsPerRow
    ensures forall k, m :: 0 <= k < m < |idx| ==> idx[k] < idx[m]
    ensures forall i :: 0 <= i < |rows| && |rows[i]| == FieldsPerRow ==> i in idx
  {
    if rows == [] then []
    else
      var n := |rows| - 1;
      var p := rows[..n];
      assert forall i :: 0 <= i < n ==> p[i] == rows[i];
      KeptIndices(p) + (if |rows[n]| == FieldsPerRow then [n] else [])
  }

  /** Kept row k is the k-th four-field row. */
  lemma {:induction false} KeepRowsFollowsIndices(rows: seq<Fields>)
    ensures |KeepRows(rows)| == |KeptIndices(rows)|
    ensures forall k :: 0 <= k < |KeepRows(rows)| ==> KeepRows(rows)[k] == rows[KeptIndices(rows)[k]]
  {
    if rows != [] {
      var n := |rows| - 1;
      var p := rows[..n];
      KeepRowsFollowsIndices(p);
      assert forall i :: 0 <= i < n ==> p[i] == rows[i];
    }
  }

  /**
   * Row k of the output is the fields of line `idx[k] + 1` of the text, for
   * ascending `idx`: lines keep their order, the header (line 0) is never
   * emitted, and every later line with four fields is.
   */
  lemma DataRowsAreTheFourFieldLines(text: string)
    ensures var lines, idx := Lines(text), KeptIndices(FieldLists(Lines(text)[1..]));
      |DataRows(text)| == |idx| &&
      (forall k :: 0 <= k < |idx| ==> 1 <= idx[k] + 1 < |lines| && DataRows(text)[k] == LineFields(lines[idx[k] + 1])) &&
      (forall k, m :: 0 <= k < m < |idx| ==> idx[k] < idx[m]) &&
      (forall i :: 1 <= i < |lines| && |LineFields(lines[i])| == FieldsPerRow ==> i - 1 in idx)
  {
    var lines := Lines(text);
    var body := lines[1..];
    var rows := FieldLists(body);
    var idx := KeptIndices(rows);
    assert DataRows(text) == KeepRows(rows);
    KeepRowsFollowsIndices(rows);
    forall k | 0 <= k < |idx|
      ensures DataRows(text)[k] == LineFields(lines[idx[k] + 1])
    {
      assert rows[idx[k]] == LineFields(body[idx[k]]);
      assert body[idx[k]] == lines[idx[k] + 1];
    }
    forall i | 1 <= i < |lines| && |LineFields(lines[i])| == FieldsPerRow
      ensures i - 1 in idx
    {
      assert rows[i - 1] == LineFields(lines[i]);
    }
  }

  // ---------------------------------------------------------------------
  // The header line.

  /** Whatever the header says, the rows come from the text after its newline. */
  lemma HeaderNeverEmitted(header: string, body: string)
    requires '\n' !in header
    ensures DataRows(header + "\n" + body) == KeepRows(FieldLists(Lines(body)))
  {
    SplitPrefix(header, "\n" + body, '\n');
    var t := "\n" + body;
    assert t[0] == '\n' && t[1..] == body;
    assert Split(t, '\n') == [""] + Split(body, '\n');
    assert header + "\n" + body == header + t;
  }

  /** Text without a newline is all header: nothing is emitted, even for a four-field line. */
  lemma SingleLineYieldsNothing(text: string)
    requires '\n' !in text
    ensures DataRows(text) == []
  {
    SplitJoin([text], '\n');
  }

  /** A malformed row between two good ones is dropped; the good ones are kept in order. */
  lemma MalformedRowBetweenGoodRows(header: string, good1: string, bad: string, good2: string)
    requires '\n' !in header && '\n' !in good1 && '\n' !in bad && '\n' !in good2
    requires |LineFields(good1)| == FieldsPerRow && |LineFields(good2)| == FieldsPerRow
    requires |LineFields(bad)| != FieldsPerRow
    ensures DataRows(header + "\n" + good1 + "\n" + bad + "\n" + good2) == [LineFields(good1), LineFields(good2)]
  {
    var text := header + "\n" + good1 + "\n" + bad + "\n" + good2;
    var lines := [header, good1, bad, good2];
    JoinFourLines(header, good1, bad, good2);
    SplitJoin(lines, '\n');
    assert Lines(text) == lines;
    var f1, fb, f2 := LineFields(good1), LineFields(bad), LineFields(good2);
    assert FieldLists(lines[1..]) == [f1, fb, f2];
    KeepRowsStep([], f1);
    assert [] + [f1] == [f1];
    KeepRowsStep([f1], fb);
    assert [f1] + [fb] == [f1, fb];
    KeepRowsStep([f1, fb], f2);
    assert [f1, fb] + [f2] == [f1, fb, f2];
  }

  lemma JoinFourLines(a: string, b: string, c: string, d: string)
    ensures Join([a, b, c, d], '\n') == a + "\n" + b + "\n" + c + "\n" + d
  {
    var lines := [a, b, c, d];
    assert lines[1..][1..] == lines[2..] && lines[2..][1..] == lines[3..];
    assert Join(lines[3..], '\n') == d;
    assert Join(lines[2..], '\n') == c + "\n" + d;
    assert Join(lines[1..], '\n') == b + "\n" + c + "\n" + d;
  }

  // ---------------------------------------------------------------------
  // Whitespace around a line.

  /** Trailing whitespace, such as the carriage return of a CRLF file, does not change a line's fields. */
  lemma TrailingWhitespaceIgnored(line: string, c: char)
    requires IsJsWhitespace(c)
    ensures LineFields(line + [c]) == LineFields(line)
  {
    var s := line + [c];
    TrimRemovesSurroundingWhitespace(line);
    TrimRemovesSurroundingWhitespace(s);
    var lo, hi :| TrimmedAt(line, lo, hi) && Trim(line) == line[lo..hi];
    assert forall i :: 0 <= i < |line| ==> s[i] == line[i];
    assert s[|line|] == c;
    assert TrimmedAt(s, lo, hi);
    assert s[lo..hi] == line[lo..hi];
    TrimIsUnique(Trim(s), Trim(line), s);
  }

  /** A line without surrounding whitespace splits into the pieces it was joined from. */
  lemma CleanLineFields(line: string, fields: seq<string>)
    requires |fields| >= 1 && line == Join(fields, ',')
    requires forall k :: 0 <= k < |fields| ==> ',' !in fields[k]
    requires line != [] && !IsJsWhitespace(line[0]) && !IsJsWhitespace(line[|line| - 1])
    ensures LineFields(line) == fields
  {
    assert Trim(line) == line by {
      assert TrimmedAt(line, 0, |line|);
      assert line[0..|line|] == line;
      TrimRemovesSurroundingWhitespace(line);
      TrimIsUnique(Trim(line), line, line);
    }
    SplitJoin(fields, ',');
  }
}
