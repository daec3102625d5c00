/**
 Loading the custom dialogue topics (`LoadDialogueTopicsFromCSV`).

 The table is tab-separated text. The first line is a header. Every further
 line is split on tabs and columns 1 to 12 become the topic's caption,
 answer (macro-expanded), `AddCaption` and the three condition triples;
 column 0 and any column past 12 are ignored. Topics are numbered by line,
 from 1 for the first line after the header. A line with fewer than 13
 columns makes the column lookup throw: loading stops there, keeping the
 topics already read, and the exception leaves the window's opening.
 */
module TopicTable {
  import opened Text
  import opened Topics
  import Conditions

  /** Columns 0 to 12 are read. */
  const ColumnCount: nat := 13

  predicate IsLineBreak(c: char) {
    c == '\n' || c == '\r'
  }

  /** The length of the first line of `text`: up to the first line break. */
  function LineLength(text: string): (n: nat)
    ensures n <= |text|
    ensures forall i :: 0 <= i < n ==> !IsLineBreak(text[i])
    ensures n < |text| ==> IsLineBreak(text[n])
  {
    if |text| == 0 || IsLineBreak(text[0]) then 0 else 1 + LineLength(text[1..])
  }

  /** Repeated `StringReader.ReadLine()`: lines end at `\n`, `\r` or
      `\r\n`, and a final line break does not start another line. */
  function ReadLines(text: string): (lines: seq<string>)
    ensures forall i :: 0 <= i < |lines| ==> forall c :: c in lines[i] ==> !IsLineBreak(c)
    decreases |text|
  {
    if |text| == 0 then []
    else
      var n := LineLength(text);
      var line := text[..n];
      assert forall c :: c in line ==> !IsLineBreak(c);
      if n == |text| then [line]
      else if text[n] == '\r' && n + 1 < |text| && text[n + 1] == '\n' then [line] + ReadLines(text[n + 2..])
      else [line] + ReadLines(text[n + 1..])
  }

  /** Lines written one after another, each ended by `\n`. */
  function WriteLines(lines: seq<string>): string {
    if |lines| == 0 then [] else lines[0] + "\n" + WriteLines(lines[1..])
  }

  lemma LineLengthOfLine(line: string, rest: string)
    requires forall c :: c in line ==> !IsLineBreak(c)
    ensures LineLength(line + rest) == |line| + LineLength(rest)
  {
    if |line| > 0 {
      assert line[0] in line;
      assert (line + rest)[1..] == line[1..] + rest;
      assert forall c :: c in line[1..] ==> c in line;
      LineLengthOfLine(line[1..], rest);
    } else {
      assert line + rest == rest;
    }
  }

  /** Reading back lines written with `\n` endings gives the same lines. */
  lemma {:induction false} ReadWrittenLines(lines: seq<string>)
    requires forall i :: 0 <= i < |lines| ==> forall c :: c in lines[i] ==> !IsLineBreak(c)
    ensures ReadLines(WriteLines(lines)) == lines
  {
    if |lines| > 0 {
      var line := lines[0];
      var rest := WriteLines(lines[1..]);
      var text := WriteLines(lines);
      assert text == line + ("\n" + rest);
      LineLengthOfLine(line, "\n" + rest);
      assert LineLength("\n" + rest) == 0;
      assert text[..|line|] == line;
      assert text[|line|] == '\n';
      assert text[|line| + 1..] == rest;
      ReadWrittenLines(lines[1..]);
    }
  }

  /** One line after the header: `None` when it has fewer than 13 columns,
      where the source throws. */
  function ParseRow(line: string, lineNumber: nat, macros: string -> Option<string>): (r: Option<Entry>)
    ensures r.Some? <==> |Split(line, '\t')| >= ColumnCount
    ensures r.Some? ==> r.value.line == lineNumber && |r.value.conditions| == 3
  {
    var values := Split(line, '\t');
    if |values| < ColumnCount then None
    else
      Some(Entry(
        lineNumber,
        values[1],
        ExpandMacros(macros, values[2]),
        values[3],
        [ Conditions.Condition(values[4], values[5], values[6]),
          Conditions.Condition(values[7], values[8], values[9]),
          Conditions.Condition(values[10], values[11], values[12]) ]))
  }

  /** The result of loading: the topics read and, when a short line stopped
      the load, that line's number. */
  datatype Loaded = Loaded(entries: seq<Entry>, failedLine: Option<nat>)

  /** The loop over the lines after the header, numbered from `lineNumber`. */
  function LoadRows(rows: seq<string>, lineNumber: nat, macros: string -> Option<string>): (r: Loaded)
    ensures |r.entries| <= |rows|
    ensures forall i :: 0 <= i < |r.entries| ==> ParseRow(rows[i], lineNumber + i, macros) == Some(r.entries[i])
    ensures r.failedLine.None? ==> |r.entries| == |rows|
    ensures r.failedLine.Some? ==>
              && |r.entries| < |rows|
              && r.failedLine.value == lineNumber + |r.entries|
              && ParseRow(rows[|r.entries|], lineNumber + |r.entries|, macros).None?
  {
    if |rows| == 0 then Loaded([], None)
    else
      match ParseRow(rows[0], lineNumber, macros)
      case None => Loaded([], Some(lineNumber))
      case Some(e) =>
        var rest := LoadRows(rows[1..], lineNumber + 1, macros);
        Loaded([e] + rest.entries, rest.failedLine)
  }

  /** `LoadDialogueTopicsFromCSV`: no topics when the asset is missing. */
  function LoadTopics(asset: Option<string>, macros: string -> Option<string>): (r: Loaded)
  {
    match asset
    case None => Loaded([], None)
    case Some(text) =>
      var lines := ReadLines(text);
      if |lines| == 0 then Loaded([], None) else LoadRows(lines[1..], 1, macros)
  }

  /** A line made of 13 or more tab-free columns is read column by column. */
  lemma RowColumns(fields: seq<string>, lineNumber: nat, macros: string -> Option<string>)
    requires |fields| >= ColumnCount
    requires forall k :: 0 <= k < |fields| ==> '\t' !in fields[k]
    ensures ParseRow(Join(fields, '\t'), lineNumber, macros) == Some(Entry(
              lineNumber,
              fields[1],
              ExpandMacros(macros, fields[2]),
              fields[3],
              [ Conditions.Condition(fields[4], fields[5], fields[6]),
                Conditions.Condition(fields[7], fields[8], fields[9]),
                Conditions.Condition(fields[10], fields[11], fields[12]) ]))
  {
    SplitJoin(fields, '\t');
    assert Split(Join(fields, '\t'), '\t') == fields;
  }

  /** A line with fewer than 13 columns stops the load. */
  lemma ShortRowRejected(fields: seq<string>, lineNumber: nat, macros: string -> Option<string>)
    requires 1 <= |fields| < ColumnCount
    requires forall k :: 0 <= k < |fields| ==> '\t' !in fields[k]
    ensures ParseRow(Join(fields, '\t'), lineNumber, macros).None?
  {
    SplitJoin(fields, '\t');
  }

  /** The header line is skipped and topics are numbered from 1. */
  lemma HeaderSkipped(header: string, rows: seq<string>, macros: string -> Option<string>)
    requires forall c :: c in header ==> !IsLineBreak(c)
    requires forall i :: 0 <= i < |rows| ==> forall c :: c in rows[i] ==> !IsLineBreak(c)
    ensures LoadTopics(Some(WriteLines([header] + rows)), macros) == LoadRows(rows, 1, macros)
  {
    var lines := [header] + rows;
    forall i | 0 <= i < |lines| ensures forall c :: c in lines[i] ==> !IsLineBreak(c) {
      if i > 0 {
        assert lines[i] == rows[i - 1];
      }
    }
    ReadWrittenLines(lines);
    assert ReadLines(WriteLines(lines)) == lines;
    assert lines[1..] == rows;
  }
}
