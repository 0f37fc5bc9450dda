/** `generateTableRows` (generate_naics_html.js:45-54): one table row per
    record, in record order, rows separated by line feeds. A row reads the
    four fixed keys `Code`, `Description`, `Level` and `Parent_Code`. */
module Render {
  import opened Text
  import opened Records
  import Csv
  import opened Seqs

  /** `${item[key]}` inside a template literal: the value, or the text
      "undefined" when the record has no such key. */
  function Show(item: Record, key: string): (r: string)
    ensures key in item ==> r == item[key]
    ensures key !in item ==> r == "undefined"
  {
    if key in item then item[key] else "undefined"
  }

  /** The six lines of one row of the template at lines 47-52. */
  function RowLines(item: Record): seq<string>
  {
    [ "            <tr>",
      "                <td>" + Show(item, "Code") + "</td>",
      "                <td>" + Show(item, "Description") + "</td>",
      "                <td>" + Show(item, "Level") + "</td>",
      "                <td>" + Show(item, "Parent_Code") + "</td>",
      "            </tr>" ]
  }

  /** The row of one record, as one string. */
  function Row(item: Record): string
  {
    Join(RowLines(item), "\n")
  }

  /** All rows, joined with line feeds. */
  function TableRows(data: seq<Record>): string
  {
    Join(seq(|data|, i requires 0 <= i < |data| => Row(data[i])), "\n")
  }

  /** None of the four displayed cells holds a line feed. */
  predicate SingleLineCells(item: Record)
  {
    && '\n' !in Show(item, "Code")
    && '\n' !in Show(item, "Description")
    && '\n' !in Show(item, "Level")
    && '\n' !in Show(item, "Parent_Code")
  }

  /** A row whose cells hold no line feed is exactly six output lines. */
  lemma RowSplitsIntoLines(item: Record)
    requires SingleLineCells(item)
    ensures Split(Row(item), '\n') == RowLines(item)
  {
    var lines := RowLines(item);
    forall i | 0 <= i < |lines|
      ensures '\n' !in lines[i]
    {
    }
    SplitJoin(lines, '\n');
  }

  /** One more record adds its row after all earlier rows. */
  lemma TableRowsAppend(data: seq<Record>, item: Record)
    requires |data| > 0
    ensures TableRows(data + [item]) == TableRows(data) + "\n" + Row(item)
  {
    var rows := seq(|data|, i requires 0 <= i < |data| => Row(data[i]));
    assert seq(|data + [item]|, i requires 0 <= i < |data + [item]| => Row((data + [item])[i])) == rows + [Row(item)];
    JoinSnoc(rows, Row(item), "\n");
  }

  /** One more record adds the six lines of its row after the earlier
      output lines. */
  lemma TableRowsSplitSnoc(data: seq<Record>, item: Record)
    requires |data| > 0
    requires SingleLineCells(item)
    ensures Split(TableRows(data + [item]), '\n') == Split(TableRows(data), '\n') + RowLines(item)
  {
    TableRowsAppend(data, item);
    SplitConcat(TableRows(data), Row(item), '\n');
    RowSplitsIntoLines(item);
  }

  /** Each record's six lines sit at its own place among the output lines. */
  predicate RowsInPlace(data: seq<Record>, lines: seq<string>)
  {
    && |lines| == 6 * |data|
    && forall j :: 0 <= j < |data| ==> lines[6 * j .. 6 * j + 6] == RowLines(data[j])
  }

  /** An earlier record's lines stay in place when more lines follow. */
  lemma RowKeptInPlace(data: seq<Record>, lines: seq<string>, more: seq<string>, j: nat)
    requires RowsInPlace(data, lines)
    requires j < |data|
    ensures (lines + more)[6 * j .. 6 * j + 6] == RowLines(data[j])
  {
    SliceLeft(lines, more, 6 * j, 6 * j + 6);
  }

  /** RowsInPlace survives one more record and its six lines. */
  lemma RowsInPlaceSnoc(data: seq<Record>, lines: seq<string>, item: Record)
    requires RowsInPlace(data, lines)
    ensures RowsInPlace(data + [item], lines + RowLines(item))
  {
    var all := lines + RowLines(item);
    var data' := data + [item];
    forall j | 0 <= j < |data'|
      ensures all[6 * j .. 6 * j + 6] == RowLines(data'[j])
    {
      if j < |data| {
        RowKeptInPlace(data, lines, RowLines(item), j);
        assert data'[j] == data[j];
      } else {
        SliceRight(lines, RowLines(item));
      }
    }
  }

  /** The output lines of the rows are the six lines of each record's row,
      record after record. */
  lemma {:induction false} TableRowsLines(data: seq<Record>)
    requires |data| > 0
    requires forall j :: 0 <= j < |data| ==> SingleLineCells(data[j])
    ensures RowsInPlace(data, Split(TableRows(data), '\n'))
    decreases |data|
  {
    var n := |data| - 1;
    if n == 0 {
      assert RowsInPlace(data, Split(TableRows(data), '\n')) by {
        assert TableRows(data) == Row(data[0]);
        RowSplitsIntoLines(data[0]);
        assert data == [] + [data[0]];
        RowsInPlaceSnoc([], [], data[0]);
      }
    } else {
      var init := data[..n];
      var item := data[n];
      assert data == init + [item];
      assert RowsInPlace(init, Split(TableRows(init), '\n')) by {
        TableRowsLines(init);
      }
      assert Split(TableRows(data), '\n') == Split(TableRows(init), '\n') + RowLines(item) by {
        TableRowsSplitSnoc(init, item);
      }
      RowsInPlaceSnoc(init, Split(TableRows(init), '\n'), item);
    }
  }

  /** The displayed cells of a parsed record hold no line feed: its values
      never do, and a missing key shows as the single-line text "undefined". */
  lemma ParsedCellsSingleLine(text: string)
    ensures forall j :: 0 <= j < |Csv.Parse(text)| ==> SingleLineCells(Csv.Parse(text)[j])
  {
    Csv.ParsedValuesClean(text);
    assert '\n' !in "undefined";
  }

  /** Every parsed record renders as its six lines, in record order. (With
      no records the output is the empty text, which is one empty line.) */
  lemma ParsedRecordsRenderInPlace(text: string)
    ensures |Csv.Parse(text)| > 0 ==> RowsInPlace(Csv.Parse(text), Split(TableRows(Csv.Parse(text)), '\n'))
  {
    if |Csv.Parse(text)| > 0 {
      ParsedCellsSingleLine(text);
      TableRowsLines(Csv.Parse(text));
    }
  }
}
