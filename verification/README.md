# NAICS CSV parser: a Dafny model

This project models the parsing core of the NAICS table generator
(`generate_naics_html.js`). The generator turns a CSV file of NAICS codes
into an HTML table. Its only real logic is `parseCSV`, a lenient,
quote-aware CSV reader:

- it splits the text on line feeds;
- it reads the column names from the first line, splitting it on every
  comma and removing at most one leading and one trailing double quote from
  each name;
- it drops every later line that is blank after `trim()`;
- it scans each remaining line one character at a time with an "inside
  quotes" flag, where a quote only flips the flag and a comma outside
  quotes closes a field;
- it pairs the fields with the column names by position, padding short
  rows with `""` and dropping extra values.

The model also covers `generateTableRows`, which renders one six-line
`<tr>` block per record and joins the blocks with line feeds.

Modules, one file each:

- `Seqs` (`seqs.dfy`): generic facts about concatenation and slicing.
- `Text` (`text.dfy`): the string operations the parser uses:
  - counting and deleting a character;
  - JavaScript's `split` with a one-character separator, and
    `Array.prototype.join`;
  - `trim`, with ECMAScript's whitespace and line-terminator code points
    listed explicitly;
  - the quote strip `.replace(/^"/, '').replace(/"$/, '')`.
- `Writer` (`writer.dfy`): a reference writer. Each value is written either
  bare or between quotes, with commas between values. The round-trip
  properties are stated against it.
- `Scanner` (`scanner.dfy`): the per-line state machine
  `ScanState(inQuotes, current, values)`, as a left fold (`Run`, `Fields`)
  and as the source's own loop (`ScanLine`).
- `Records` (`records.dfy`): building a record. A record is a
  `map<string, string>`, and a repeated column name keeps the value at its
  last position.
- `Csv` (`csv.dfy`): the whole parser, `Parse`.
- `Render` (`render.dfy`): `generateTableRows`.
- `Scenarios` (`scenarios.dfy`): worked inputs derived from the general
  lemmas:
  - quoted values;
  - a comma inside quotes;
  - a short row;
  - an unclosed quote;
  - a quoted header name holding a comma;
  - CRLF line ends.

Two behaviours of the code are worth stating plainly:

- A record missing one of the four displayed keys does not give an empty
  cell: the template literal at lines 48-51 prints the text `undefined`
  (`Render.Show`).
- The code splits on `'\n'` only, so with CRLF line ends the carriage
  return stays at the end of the last header name and of the last value of
  each line (`Scenarios.CarriageReturnKept`). A line holding only `"\r"` is
  blank, because `trim` removes the carriage return.

## Model

| member | source | states |
|---|---|---|
| Text.Split | generate_naics_html.js:9 | `split` on one character gives exactly one more piece than there are separators |
| Text.SplitPiecesLack | generate_naics_html.js:9 | no piece produced by `split` contains the separator |
| Text.JoinSplit | generate_naics_html.js:9 | joining the pieces with the separator gives back the text |
| Text.SplitJoin | generate_naics_html.js:9 | splitting a join of separator-free parts gives back the parts |
| Text.SplitConcat | generate_naics_html.js:9 | splitting text with a separator in the middle splits the two sides independently, so the lines before a line feed do not depend on what follows it |
| Text.SplitNone | generate_naics_html.js:9 | text without the separator is a single piece |
| Text.TrimStart | generate_naics_html.js:14 | leading trim removes a whitespace prefix and leaves a suffix that starts with non-whitespace or is empty |
| Text.TrimEnd | generate_naics_html.js:14 | trailing trim removes a whitespace suffix and leaves a prefix that ends with non-whitespace or is empty |
| Text.TrimEmptyIffBlank | generate_naics_html.js:14 | `line.trim() === ''` holds exactly when every character of the line is whitespace |
| Text.StripQuotes | generate_naics_html.js:11 | the strip changes a token exactly when it starts or ends with a quote, and removes at most two characters |
| Text.StripQuotesUnwraps | generate_naics_html.js:11 | a token wrapped in one pair of quotes comes back unwrapped, even when it holds quotes itself |
| Text.StripQuotesLeadingOnly | generate_naics_html.js:11 | a leading quote is removed on its own when the token does not end with a quote, even when a second quote follows it (`""ab` gives `"ab`) |
| Text.StripQuotesTrailingOnly | generate_naics_html.js:11 | a trailing quote is removed on its own when the token does not start with a quote, even when a second quote precedes it (`ab""` gives `ab"`) |
| Scanner.StepCases | generate_naics_html.js:23-30 | one iteration of the loop body: a quote flips the flag and changes nothing else; a comma outside quotes, and only that, closes the buffer as a new field after the one-quote strip and empties it; any other character, or a comma inside quotes, is appended to the buffer; earlier fields are never changed |
| Scanner.Scan | generate_naics_html.js:20-31 | after scanning, the flag equals its start value flipped once per quote character (odd count means inside); no quote is ever stored; the fields closed before are kept, unchanged, as a prefix |
| Scanner.Fields | generate_naics_html.js:16-33 | a data line always yields at least one value, and no value contains a double quote |
| Scanner.StripIsNoOp | generate_naics_html.js:26-33 | the quote strip applied when a field is closed never changes it, because the buffer never holds a quote |
| Scanner.ScanConcat | generate_naics_html.js:20-31 | scanning `a + b` is scanning `a` and then `b` from the state reached |
| Scanner.FieldCount | generate_naics_html.js:25-33 | a line yields exactly one value more than it has commas outside quotes, where "outside" means an even number of quotes before the comma |
| Scanner.RunCountsSeparators | generate_naics_html.js:25-27 | the number of closed fields is the number of commas outside quotes seen so far |
| Scanner.FieldsJoin | generate_naics_html.js:20-33 | the values joined with `","` give back the line with every `"` deleted |
| Scanner.RunJoin | generate_naics_html.js:20-31 | the closed fields and the open buffer, joined with commas, are the text scanned so far with quotes deleted |
| Scanner.FieldsWithoutQuotes | generate_naics_html.js:20-33 | for a line with no `"`, the values are exactly the line split on `','` |
| Scanner.FieldsLack | generate_naics_html.js:20-33 | a character absent from the line is absent from every value |
| Scanner.UnclosedQuoteAbsorbs | generate_naics_html.js:23-29 | once inside quotes with no closing quote ahead, every later character, commas included, is appended to the buffer |
| Scanner.UnclosedQuoteMerges | generate_naics_html.js:23-33 | an unmatched quote merges the rest of the line into the last value; no error is raised |
| Scanner.ScanWritten | generate_naics_html.js:20-31 | a value written bare (no quote, no comma) or between quotes (no quote) is read into the buffer, and the flag is back outside afterwards |
| Scanner.WrittenScan | generate_naics_html.js:20-31 | after a written line, all values but the last are closed and the last is open, outside quotes |
| Scanner.WrittenRoundTrip | generate_naics_html.js:16-33 | a line written from readable values, each bare or quoted, is read back as exactly those values; quoted values may hold commas |
| Scanner.ScanLine | generate_naics_html.js:16-33 | the source's imperative loop yields at least one value and computes `Fields`, with its count of values and its join round trip |
| Records.BuildRecord | generate_naics_html.js:35-38 | the record's keys are exactly the header names |
| Records.CellFallback | generate_naics_html.js:37 | `values[index]` with its empty-string fallback is `""` exactly when the index is past the row or the value is empty, and otherwise the value itself |
| Records.LastPositionWins | generate_naics_html.js:36-37 | a name holds the value at its last position among the headers, or `""` past the end of the row |
| Records.DistinctHeadersPairByPosition | generate_naics_html.js:36-37 | with distinct header names, header `i` holds value `i`, or `""` when the row is too short |
| Records.ExtraValuesDropped | generate_naics_html.js:36-37 | values past the last header are dropped |
| Records.ShortRowPadded | generate_naics_html.js:37 | padding a short row with empty values changes nothing: missing values read as `""` |
| Records.BuildRecordSameCells | generate_naics_html.js:36-37 | the record depends only on the first `|headers|` cells |
| Records.BuildRecordValuesFromRow | generate_naics_html.js:37 | every value of the record is one of the row's values or `""` |
| Records.BuildRecordLacks | generate_naics_html.js:37 | a character absent from every value of the row is absent from every value of the record |
| Csv.Lines | generate_naics_html.js:9 | there is one line more than there are line feeds, and no line holds a line feed |
| Csv.Headers | generate_naics_html.js:10-12 | there is one column name per comma-separated token of the first line |
| Csv.HeadersFromFirstLine | generate_naics_html.js:9-12 | the column names depend only on the text before the first line feed |
| Csv.HeaderRoundTrip | generate_naics_html.js:10-12 | a header line written from names that are comma-free and, when bare, not quote-ended, gives back those names; a quoted name may hold quotes |
| Csv.LineRecords | generate_naics_html.js:14 | a data line gives at most one record, with exactly the header names as keys |
| Csv.LineRecordsIffNotBlank | generate_naics_html.js:14 | a line gives a record exactly when it is not all whitespace |
| Csv.DataRecords | generate_naics_html.js:14 | there are never more records than data lines |
| Csv.DataRecordsKeys | generate_naics_html.js:35-38 | every record has exactly the header names as keys |
| Csv.Parse | generate_naics_html.js:8-42 | every parsed record has exactly the column names as keys |
| Csv.DataRecordsConcat | generate_naics_html.js:14 | the records of two runs of lines are the records of each, in order |
| Csv.RecordCount | generate_naics_html.js:14 | the number of records equals the number of data lines that are not blank |
| Csv.ParseRecordCount | generate_naics_html.js:9-14 | the parser gives exactly one record per line after the first that is not all whitespace |
| Csv.ParseAppend | generate_naics_html.js:9-14 | text appended after a line feed keeps the earlier records and adds the new lines' records after them, under the same header |
| Csv.ParseAppendLine | generate_naics_html.js:14-41 | one more line adds exactly one record at the end when it is not blank, and none when it is |
| Csv.HeaderOnly | generate_naics_html.js:9-14 | a text without a line feed has no records |
| Csv.ParsedValuesClean | generate_naics_html.js:9-33 | no value of any parsed record holds a double quote or a line feed |
| Csv.RecordValuesClean | generate_naics_html.js:23-33 | no value built from line-feed-free lines holds a double quote or a line feed |
| Csv.LineValuesClean | generate_naics_html.js:23-33 | the record of one line-feed-free line holds no double quote and no line feed |
| Render.Show | generate_naics_html.js:48-51 | `${item.X}` gives the record's value for a present key and the text `undefined` for a missing one |
| Render.RowSplitsIntoLines | generate_naics_html.js:46-52 | a row whose cells hold no line feed is exactly its six template lines |
| Render.TableRowsAppend | generate_naics_html.js:45-54 | one more record adds its row after all the earlier rows, separated by a line feed |
| Render.TableRowsSplitSnoc | generate_naics_html.js:45-54 | one more record adds the six lines of its row after the earlier output lines |
| Render.RowsInPlaceSnoc | generate_naics_html.js:45-54 | the earlier records' lines stay in place when a record is added |
| Render.TableRowsLines | generate_naics_html.js:45-54 | for one or more records whose displayed cells hold no line feed, the output lines are each record's six row lines, in record order |
| Render.ParsedCellsSingleLine | generate_naics_html.js:48-51 | every displayed cell of a parsed record is a single line, including a missing key shown as `undefined` |
| Render.ParsedRecordsRenderInPlace | generate_naics_html.js:45-54 | when there is at least one record, parsed records render as six lines each, in record order |
| Scenarios.CommaInsideQuotesKept | generate_naics_html.js:23-33 | `"111","Oil, Gas"` reads as `111` and `Oil, Gas`: the quotes go, the comma between them stays |
| Scenarios.ShortRowState | generate_naics_html.js:20-31 | the scanner over `"21",,2` ends outside quotes with `21` and `""` closed and `2` open |
| Scenarios.ShortRowFields | generate_naics_html.js:16-33 | `"21",,2` reads as `21`, `""` and `2` |
| Scenarios.NaicsRecord | generate_naics_html.js:35-38 | a record under the four NAICS columns pairs each with its cell |
| Scenarios.ShortRowScenario | generate_naics_html.js:35-38 | three values under four columns leave `Parent_Code` as `""` |
| Scenarios.OpenQuoteState | generate_naics_html.js:23-27 | after `a,"` one value is closed and the scanner is inside quotes |
| Scenarios.UnclosedQuoteScenario | generate_naics_html.js:23-33 | `a,"b,c` reads as `a` and `b,c` |
| Scenarios.QuotedHeaderCommaSplits | generate_naics_html.js:10-12 | a header line `"Oil, Gas"` gives two names, `Oil` and ` Gas`, because header splitting ignores quotes |
| Scenarios.CarriageReturnKept | generate_naics_html.js:9-41 | `A,B\r\n1,2\r` gives one record `{A: 1, "B\r": "2\r"}`: the carriage returns are kept |

## Left out

- File I/O (lines 2, 5 and 156) and the console message (line 157). The
  parser is modelled as a function of the input text.
- `generateHTML` (lines 57-148). It is a fixed template around the rows,
  with no logic.
- JavaScript object quirks. A column named `__proto__` does not become a
  key, and an object lists integer-like keys (a column named `2017`, say)
  first, in numeric order, then the other keys in insertion order. A record
  is modelled as a map from name to value, which has neither behaviour.
- Code units. JavaScript strings index UTF-16 code units, while a Dafny
  `char` is a Unicode scalar value. The characters the parser tests (`"`,
  `,`, `\n`) are the same either way. Only text containing surrogate pairs
  would be indexed differently.
- Whitespace for `trim`. The model lists the ECMAScript WhiteSpace and
  LineTerminator code points, taking the space separators (category Zs)
  from current Unicode. An engine built on another Unicode version may
  differ on that category.
- The I/O wiring at lines 152-153, which calls `parseCSV` and then
  `generateHTML`.
