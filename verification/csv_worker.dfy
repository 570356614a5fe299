/**
 * The CSV worker: a line-by-line, quote-aware tokenizer that reports
 * fractional progress, and the reply the worker posts back to its caller.
 */
module CsvWorker {
  import opened Wrappers
  import opened Text

  /** One tokenized line: its fields, in order. */
  type Row = seq<string>

  /** `text.replace(/\r\n/g, "\n")`: every CRLF pair becomes a single LF, left to right. */
  function NormalizeLineEndings(s: string): (r: string)
    ensures |r| <= |s|
  {
    if |s| == 0 then ""
    else if |s| >= 2 && s[0] == '\r' && s[1] == '\n' then
      assert s[1..][1..] == s[2..];
      "\n" + NormalizeLineEndings(s[2..])
    else [s[0]] + NormalizeLineEndings(s[1..])
  }

  /** The lines the tokenizer visits: the normalised text split on LF. */
  function Lines(text: string): (lines: seq<string>)
    ensures |lines| == Occurrences(text, '\n') + 1
  {
    NormalizeKeepsLf(text);
    Split(NormalizeLineEndings(text), '\n')
  }

  /** Normalisation keeps every line break: a CRLF pair loses only its CR. */
  lemma {:induction false} NormalizeKeepsLf(s: string)
    ensures Occurrences(NormalizeLineEndings(s), '\n') == Occurrences(s, '\n')
    decreases |s|
  {
    if |s| >= 2 && s[0] == '\r' && s[1] == '\n' {
      NormalizeKeepsLf(s[2..]);
      assert s[1..][1..] == s[2..];
      assert ("\n" + NormalizeLineEndings(s[2..]))[1..] == NormalizeLineEndings(s[2..]);
    } else if |s| > 0 {
      NormalizeKeepsLf(s[1..]);
      assert ([s[0]] + NormalizeLineEndings(s[1..]))[1..] == NormalizeLineEndings(s[1..]);
    }
  }

  /**
   * How many commas of `s` act as field separators when the scan starts in
   * the given quote state: a `""` pair inside quotes is one literal quote,
   * any other `"` flips the state, and only a comma met outside quotes separates.
   */
  function Separators(s: string, inQuotes: bool): nat
  {
    if |s| == 0 then 0
    else if s[0] == '"' then
      if inQuotes && |s| >= 2 && s[1] == '"' then Separators(s[2..], true)
      else Separators(s[1..], !inQuotes)
    else if s[0] == ',' && !inQuotes then 1 + Separators(s[1..], false)
    else Separators(s[1..], inQuotes)
  }

  /**
   * The character scan of one line. `fields` are the fields already closed,
   * `current` the value accumulated so far; at the end of the line the
   * accumulated value is always pushed, even when it is empty.
   */
  function ScanLine(s: string, inQuotes: bool, current: string, fields: seq<string>): (row: seq<string>)
    ensures |row| == |fields| + 1 + Separators(s, inQuotes)
    ensures row[..|fields|] == fields
  {
    if |s| == 0 then fields + [current]
    else if s[0] == '"' then
      if inQuotes && |s| >= 2 && s[1] == '"' then ScanLine(s[2..], true, current + ['"'], fields)
      else ScanLine(s[1..], !inQuotes, current, fields)
    else if s[0] == ',' && !inQuotes then
      var r := ScanLine(s[1..], false, "", fields + [current]);
      assert r[..|fields|] == r[..|fields| + 1][..|fields|];
      r
    else ScanLine(s[1..], inQuotes, current + [s[0]], fields)
  }

  /** The fields of one line; the quote state starts afresh on every line. */
  function TokenizeLine(line: string): (row: Row)
    ensures |row| == 1 + Separators(line, false)
  {
    ScanLine(line, false, "", [])
  }

  /** The lines that produce a row: those that are neither empty nor whitespace-only, in order. */
  function NonBlank(lines: seq<string>): (r: seq<string>)
    ensures |r| <= |lines|
  {
    if |lines| == 0 then []
    else
      var last := lines[|lines| - 1];
      assert lines == lines[..|lines| - 1] + [last];
      NonBlank(lines[..|lines| - 1]) + (if IsBlank(last) then [] else [last])
  }

  /** The kept lines are exactly the non-blank members of `lines`. */
  lemma {:induction false} NonBlankMembers(lines: seq<string>)
    ensures forall l :: l in NonBlank(lines) <==> l in lines && !IsBlank(l)
  {
    if |lines| > 0 {
      var init := lines[..|lines| - 1];
      var last := lines[|lines| - 1];
      NonBlankMembers(init);
      assert lines == init + [last];
    }
  }

  /** Tokenizes each line of `lines` on its own. */
  function MapTokenize(lines: seq<string>): (rows: seq<Row>)
    ensures |rows| == |lines|
    ensures forall i :: 0 <= i < |lines| ==> rows[i] == TokenizeLine(lines[i])
  {
    seq(|lines|, i requires 0 <= i < |lines| => TokenizeLine(lines[i]))
  }

  /** The table the tokenizer returns for `text`: one row per non-blank line. */
  function TokenizeRows(text: string): seq<Row>
  {
    MapTokenize(NonBlank(Lines(text)))
  }

  /** Progress value `i / total`. */
  function Fraction(i: nat, total: nat): real
    requires total > 0
  {
    i as real / total as real
  }

  /** Line `i` reports progress: it is not blank, and its index is a multiple of 100 or the last one. */
  predicate Reported(lines: seq<string>, i: nat)
    requires i < |lines|
  {
    !IsBlank(lines[i]) && (i % 100 == 0 || i == |lines| - 1)
  }

  /** The progress values reported while visiting the first `i` lines. */
  function ProgressUpTo(lines: seq<string>, i: nat): seq<real>
    requires i <= |lines|
  {
    if i == 0 then []
    else ProgressUpTo(lines, i - 1) + (if Reported(lines, i - 1) then [Fraction(i - 1, |lines|)] else [])
  }

  /** Every progress value reported while tokenizing `text`. */
  function ProgressReports(text: string): seq<real>
  {
    var lines := Lines(text);
    ProgressUpTo(lines, |lines|)
  }

  /** Visiting one more line adds its row when it is not blank. */
  lemma RowsStep(lines: seq<string>, i: nat)
    requires i < |lines|
    ensures MapTokenize(NonBlank(lines[..i + 1]))
         == MapTokenize(NonBlank(lines[..i])) + (if IsBlank(lines[i]) then [] else [TokenizeLine(lines[i])])
  {
    assert lines[..i + 1][..i] == lines[..i];
    var before := NonBlank(lines[..i]);
    if !IsBlank(lines[i]) {
      assert NonBlank(lines[..i + 1]) == before + [lines[i]];
      assert MapTokenize(before + [lines[i]]) == MapTokenize(before) + [TokenizeLine(lines[i])];
    } else {
      assert NonBlank(lines[..i + 1]) == before;
    }
  }

  /** The rows produced while visiting the first `i` lines. */
  function RowsUpTo(lines: seq<string>, i: nat): seq<Row>
    requires i <= |lines|
  {
    if i == 0 then []
    else RowsUpTo(lines, i - 1) + (if IsBlank(lines[i - 1]) then [] else [TokenizeLine(lines[i - 1])])
  }

  /** The rows of the first `i` lines are the tokenized non-blank lines among them. */
  lemma {:induction false} RowsUpToNonBlank(lines: seq<string>, i: nat)
    requires i <= |lines|
    ensures RowsUpTo(lines, i) == MapTokenize(NonBlank(lines[..i]))
  {
    if i == 0 {
      assert lines[..0] == [];
    } else {
      RowsUpToNonBlank(lines, i - 1);
      RowsStep(lines, i - 1);
    }
  }

  /** The inner loop of the tokenizer: one pass over the characters of `line`. */
  method SplitFields(line: string) returns (row: Row)
    ensures row == TokenizeLine(line)
  {
    row := [];
    var insideQuotes := false;
    var current := "";
    var j := 0;
    while j < |line|
      invariant 0 <= j <= |line|
      invariant ScanLine(line[j..], insideQuotes, current, row) == TokenizeLine(line)
    {
      var c := line[j];
      assert line[j..][1..] == line[j + 1..];
      if c == '"' {
        if insideQuotes && j + 1 < |line| && line[j + 1] == '"' {
          assert line[j..][2..] == line[j + 2..];
          current := current + ['"'];
          j := j + 1;
        } else {
          insideQuotes := !insideQuotes;
        }
      } else if c == ',' && !insideQuotes {
        row := row + [current];
        current := "";
      } else {
        current := current + [c];
      }
      j := j + 1;
    }
    row := row + [current];
  }

  /**
   * The tokenizer: visits every line, skips blank ones, splits the others
   * into fields, and records `i / totalLines` after line `i` when `i` is a
   * multiple of 100 or the last index.
   */
  method ParseCsv(text: string) returns (rows: seq<Row>, progress: seq<real>)
    ensures rows == TokenizeRows(text)
    ensures progress == ProgressReports(text)
  {
    var lines := Lines(text);
    var totalLines := |lines|;
    rows := [];
    progress := [];
    var i := 0;
    while i < totalLines
      invariant 0 <= i <= totalLines
      invariant rows == RowsUpTo(lines, i)
      invariant progress == ProgressUpTo(lines, i)
    {
      var line := lines[i];
      assert RowsUpTo(lines, i + 1) == rows + (if IsBlank(line) then [] else [TokenizeLine(line)]);
      assert ProgressUpTo(lines, i + 1) == progress + (if Reported(lines, i) then [Fraction(i, totalLines)] else []);
      if Trim(line) != "" {
        var row := SplitFields(line);
        rows := rows + [row];
        if i % 100 == 0 || i == totalLines - 1 {
          progress := progress + [Fraction(i, totalLines)];
        }
      }
      i := i + 1;
    }
    RowsUpToNonBlank(lines, totalLines);
    assert lines[..totalLines] == lines;
  }

  /** The worker's messages: progress notes, then exactly one terminal reply. */
  datatype Message =
    | Progress(progress: real)
    | Succeeded(data: seq<Row>)
    | Failed(error: string)

  /** What a `catch` clause receives: an `Error` instance with its message, or any other thrown value. */
  datatype Thrown = ErrorObject(message: string) | OtherValue

  const ErrorPrefix: string := "Error parsing CSV file: "

  /** The failure reply built in the worker's `catch` clause. */
  function FailureReply(thrown: Thrown): (m: Message)
    ensures m.Failed? && |ErrorPrefix| <= |m.error| && m.error[..|ErrorPrefix|] == ErrorPrefix
    ensures thrown.ErrorObject? ==> m.error[|ErrorPrefix|..] == thrown.message
    ensures thrown.OtherValue? ==> m.error[|ErrorPrefix|..] == "Unknown error parsing CSV file"
  {
    var cause := match thrown
      case ErrorObject(msg) => msg
      case OtherValue => "Unknown error parsing CSV file";
    Failed(ErrorPrefix + cause)
  }

  /**
   * The worker's message handler. `text` is `None` when the request carries
   * no string, in which case `replace` throws a `TypeError` whose
   * engine-specific message is `typeError`.
   */
  function OnMessage(text: Option<string>, typeError: string): (out: seq<Message>)
    ensures |out| >= 1
    ensures forall k :: 0 <= k < |out| - 1 ==> out[k].Progress?
    ensures !out[|out| - 1].Progress?
    ensures out[|out| - 1].Succeeded? <==> text.Some?
    ensures text.Some? ==>
      && out[|out| - 1].data == TokenizeRows(text.value)
      && |out| == |ProgressReports(text.value)| + 1
      && forall k :: 0 <= k < |out| - 1 ==> out[k].progress == ProgressReports(text.value)[k]
    ensures text.None? ==> out == [Failed(ErrorPrefix + typeError)]
  {
    match text
    case None => [FailureReply(ErrorObject(typeError))]
    case Some(t) =>
      var p := ProgressReports(t);
      seq(|p|, k requires 0 <= k < |p| => Progress(p[k])) + [Succeeded(TokenizeRows(t))]
  }
}
