/** `parseCSV` (generate_naics_html.js:8-42): the whole text is split into
    lines on line feeds; the first line names the columns; every later line
    that is not blank after trimming becomes one record, in input order. */
module Csv {
  import opened Text
  import opened Scanner
  import opened Records
  import opened Writer
  import opened Seqs

  /** `csv.split('\n')`. A carriage return before a line feed stays at the
      end of its line. */
  function Lines(text: string): (lines: seq<string>)
    ensures |lines| == Count(text, '\n') + 1
    ensures forall i :: 0 <= i < |lines| ==> '\n' !in lines[i]
  {
    SplitPiecesLack(text, '\n');
    Split(text, '\n')
  }

  /** The column names: the first line split on every comma (quotes are not
      consulted here), each token losing one leading and one trailing quote. */
  function Headers(text: string): (headers: seq<string>)
    ensures |headers| == Count(Lines(text)[0], ',') + 1
  {
    var tokens := Split(Lines(text)[0], ',');
    seq(|tokens|, i requires 0 <= i < |tokens| => StripQuotes(tokens[i]))
  }

  /** The records one data line contributes: none when the line is blank
      after trimming (`line.trim() !== ''` fails), otherwise the line scanned
      and paired with the headers. */
  function LineRecords(headers: seq<string>, line: string): (records: seq<Record>)
    ensures |records| <= 1
    ensures forall j :: 0 <= j < |records| ==> records[j].Keys == set h | h in headers
  {
    if Trim(line) == [] then [] else [BuildRecord(headers, Fields(line))]
  }

  /** The records of the data lines `lines` under `headers`, line by line:
      the filter and then the map of generate_naics_html.js:14. That every
      record has exactly the header names as keys is `DataRecordsKeys`. */
  function DataRecords(headers: seq<string>, lines: seq<string>): (records: seq<Record>)
    ensures |records| <= |lines|
    decreases |lines|
  {
    if lines == [] then []
    else DataRecords(headers, lines[..|lines|-1]) + LineRecords(headers, lines[|lines|-1])
  }

  /** Every record built under `headers` has exactly the header names as
      keys. */
  lemma {:induction false} DataRecordsKeys(headers: seq<string>, lines: seq<string>)
    ensures forall j :: 0 <= j < |DataRecords(headers, lines)| ==>
      DataRecords(headers, lines)[j].Keys == set h | h in headers
    decreases |lines|
  {
    if lines != [] {
      DataRecordsKeys(headers, lines[..|lines|-1]);
    }
  }

  /** The parser: records for the non-blank lines after the first. Every
      record has exactly the header names as keys. */
  function Parse(text: string): (records: seq<Record>)
    ensures forall j :: 0 <= j < |records| ==> records[j].Keys == set h | h in Headers(text)
  {
    DataRecordsKeys(Headers(text), Lines(text)[1..]);
    DataRecords(Headers(text), Lines(text)[1..])
  }

  /** One more line adds its records after the earlier ones. */
  lemma DataRecordsSnoc(headers: seq<string>, lines: seq<string>, line: string)
    ensures DataRecords(headers, lines + [line]) == DataRecords(headers, lines) + LineRecords(headers, line)
  {
    assert (lines + [line])[..|lines|] == lines;
  }

  /** Records of two runs of lines are the records of each, in order. */
  lemma {:induction false} DataRecordsConcat(headers: seq<string>, a: seq<string>, b: seq<string>)
    ensures DataRecords(headers, a + b) == DataRecords(headers, a) + DataRecords(headers, b)
    decreases |b|
  {
    if b == [] {
      assert a + b == a;
    } else {
      var b' := b[..|b|-1];
      var line := b[|b|-1];
      SnocSplit(a, b);
      DataRecordsConcat(headers, a, b');
      DataRecordsSnoc(headers, a + b', line);
      DataRecordsSnoc(headers, b', line);
      ConcatAssoc(DataRecords(headers, a), DataRecords(headers, b'), LineRecords(headers, line));
    }
  }

  /** A line contributes a record exactly when it is not all whitespace. */
  lemma LineRecordsIffNotBlank(headers: seq<string>, line: string)
    ensures LineRecords(headers, line) == if IsBlank(line) then [] else [BuildRecord(headers, Fields(line))]
  {
    TrimEmptyIffBlank(line);
  }

  /** The positions of the lines that are not blank. */
  function NonBlank(lines: seq<string>): set<nat>
  {
    set i: nat | i < |lines| && !IsBlank(lines[i])
  }

  /** One more line adds its own position when it is not blank. */
  lemma NonBlankSnoc(lines: seq<string>, line: string)
    ensures NonBlank(lines + [line]) == NonBlank(lines) + (if IsBlank(line) then {} else {|lines|})
  {
    var s := lines + [line];
    forall i: nat | i < |lines|
      ensures s[i] == lines[i]
    {
    }
  }

  /** One record per non-blank line: the count does not depend on how the
      blank lines are spread. */
  lemma {:induction false} RecordCount(headers: seq<string>, lines: seq<string>)
    ensures |DataRecords(headers, lines)| == |NonBlank(lines)|
    decreases |lines|
  {
    if lines == [] {
      assert NonBlank(lines) == {};
    } else {
      var n := |lines| - 1;
      var init := lines[..n];
      assert lines == init + [lines[n]];
      RecordCount(headers, init);
      LineRecordsIffNotBlank(headers, lines[n]);
      NonBlankSnoc(init, lines[n]);
      assert n !in NonBlank(init);
    }
  }

  /** The parser gives one record per line after the first that is not
      blank after trimming. */
  lemma ParseRecordCount(text: string)
    ensures |Parse(text)| == |NonBlank(Lines(text)[1..])|
  {
    RecordCount(Headers(text), Lines(text)[1..]);
  }

  /** Appending text after a line feed keeps the records so far and adds the
      records of the new lines after them: the header is read once, and
      records keep input order. */
  lemma ParseAppend(text: string, more: string)
    ensures Parse(text + "\n" + more) == Parse(text) + DataRecords(Headers(text), Lines(more))
  {
    var a := Lines(text);
    var b := Lines(more);
    assert Lines(text + "\n" + more) == a + b by {
      SplitConcat(text, more, '\n');
    }
    ConcatHeadTail(a, b);
    assert Headers(text + "\n" + more) == Headers(text);
    DataRecordsConcat(Headers(text), a[1..], b);
  }

  /** One more line adds one record at the end exactly when it is not
      blank, whatever its position. */
  lemma ParseAppendLine(text: string, line: string)
    requires '\n' !in line
    ensures Parse(text + "\n" + line) ==
      Parse(text) + (if IsBlank(line) then [] else [BuildRecord(Headers(text), Fields(line))])
  {
    var headers := Headers(text);
    ParseAppend(text, line);
    assert Lines(line) == [line] by {
      SplitNone(line, '\n');
    }
    assert DataRecords(headers, [line]) == LineRecords(headers, line) by {
      assert [line][..0] == [];
    }
    LineRecordsIffNotBlank(headers, line);
  }

  /** A text with only a header line has no records. */
  lemma HeaderOnly(text: string)
    requires '\n' !in text
    ensures Parse(text) == []
  {
    SplitNone(text, '\n');
  }

  /** Every value of every record is free of double quotes and of line
      feeds. */
  lemma {:induction false} RecordValuesClean(headers: seq<string>, lines: seq<string>)
    requires forall i :: 0 <= i < |lines| ==> '\n' !in lines[i]
    ensures forall j, k :: 0 <= j < |DataRecords(headers, lines)| && k in DataRecords(headers, lines)[j] ==>
      '"' !in DataRecords(headers, lines)[j][k] && '\n' !in DataRecords(headers, lines)[j][k]
    decreases |lines|
  {
    if lines != [] {
      var n := |lines| - 1;
      RecordValuesClean(headers, lines[..n]);
      LineValuesClean(headers, lines[n]);
    }
  }

  /** The record of one line holds no double quote and no line feed. */
  lemma LineValuesClean(headers: seq<string>, line: string)
    requires '\n' !in line
    ensures forall j, k :: 0 <= j < |LineRecords(headers, line)| && k in LineRecords(headers, line)[j] ==>
      '"' !in LineRecords(headers, line)[j][k] && '\n' !in LineRecords(headers, line)[j][k]
  {
    var values := Fields(line);
    FieldsLack(line, '\n');
    BuildRecordLacks(headers, values, '"');
    BuildRecordLacks(headers, values, '\n');
  }

  /** No value of any parsed record holds a double quote or a line feed. */
  lemma ParsedValuesClean(text: string)
    ensures forall j, k :: 0 <= j < |Parse(text)| && k in Parse(text)[j] ==>
      '"' !in Parse(text)[j][k] && '\n' !in Parse(text)[j][k]
  {
    RecordValuesClean(Headers(text), Lines(text)[1..]);
  }

  /** The header line is the text up to the first line feed. */
  lemma HeadersFromFirstLine(line: string, rest: string)
    requires '\n' !in line
    ensures Headers(line + "\n" + rest) == Headers(line)
  {
    SplitConcat(line, rest, '\n');
    SplitNone(line, '\n');
  }

  /** A name the header reader reads back as written: no comma (the header
      line is split on every comma, quoted or not), no line feed, and when
      written bare no quote at either end. A quoted name may hold quotes. */
  predicate HeaderReadable(w: Written)
  {
    && ',' !in w.value
    && '\n' !in w.value
    && (w.Bare? ==> w.value == [] || (w.value[0] != '"' && w.value[|w.value|-1] != '"'))
  }

  /** Round trip: a header line written from readable names, each bare or
      between quotes, gives back those names. */
  lemma HeaderRoundTrip(ws: seq<Written>)
    requires |ws| > 0
    requires forall i :: 0 <= i < |ws| ==> HeaderReadable(ws[i])
    ensures Headers(WriteLine(ws)) == ValuesOf(ws)
  {
    var tokens := seq(|ws|, i requires 0 <= i < |ws| => Encode(ws[i]));
    forall i | 0 <= i < |ws|
      ensures ',' !in tokens[i] && '\n' !in tokens[i]
      ensures StripQuotes(tokens[i]) == ws[i].value
    {
      if ws[i].Quoted? {
        StripQuotesUnwraps(ws[i].value);
      }
    }
    var line := WriteLine(ws);
    JoinLacks(tokens, ",", '\n');
    SplitNone(line, '\n');
    SplitJoin(tokens, ',');
  }
}
