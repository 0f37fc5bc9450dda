/** Worked inputs for the parser: quoted fields, commas inside quotes and
    short rows, plus the lenient cases (an unclosed quote, a quoted header
    holding a comma, CRLF line ends). Most are derived from the general
    lemmas; the short-row and open-quote states are stepped through
    character by character. */
module Scenarios {
  import opened Text
  import opened Writer
  import opened Scanner
  import opened Records
  import opened Csv

  /** Quoted values lose their quotes, and a comma between quotes is part
      of the value. */
  lemma CommaInsideQuotesKept()
    ensures Fields("\"111\",\"Oil, Gas\"") == ["111", "Oil, Gas"]
  {
    var ws := [Quoted("111"), Quoted("Oil, Gas")];
    WriteLineSnoc([Quoted("111")], Quoted("Oil, Gas"));
    assert [Quoted("111")] + [Quoted("Oil, Gas")] == ws;
    assert WriteLine(ws) == "\"111\",\"Oil, Gas\"";
    WrittenRoundTrip(ws);
  }

  /** The scanner over the quoted first value of a short row, character by
      character. */
  lemma ShortRowQuotedState()
    ensures Run("\"21\"") == ScanState(false, "21", [])
  {
    var l0: string := [];
    var l1 := l0 + ['"'];
    assert Run(l1) == ScanState(true, "", []) by {
      RunSnoc(l0, '"');
    }
    var l2 := l1 + ['2'];
    assert Run(l2) == ScanState(true, "2", []) by {
      RunSnoc(l1, '2');
    }
    var l3 := l2 + ['1'];
    assert Run(l3) == ScanState(true, "21", []) by {
      RunSnoc(l2, '1');
    }
    var l4 := l3 + ['"'];
    assert Run(l4) == ScanState(false, "21", []) by {
      RunSnoc(l3, '"');
    }
    assert l4 == "\"21\"";
  }

  /** The scanner over a short row: two commas close two values. */
  lemma ShortRowState()
    ensures Run("\"21\",,2") == ScanState(false, "2", ["21", ""])
  {
    var l4 := "\"21\"";
    ShortRowQuotedState();
    var l5 := l4 + [','];
    assert Run(l5) == ScanState(false, "", ["21"]) by {
      RunSnoc(l4, ',');
    }
    var l6 := l5 + [','];
    assert Run(l6) == ScanState(false, "", ["21", ""]) by {
      RunSnoc(l5, ',');
    }
    var l7 := l6 + ['2'];
    assert Run(l7) == ScanState(false, "2", ["21", ""]) by {
      RunSnoc(l6, '2');
    }
    assert l7 == "\"21\",,2";
  }

  /** The values of a short row. */
  lemma ShortRowFields()
    ensures Fields("\"21\",,2") == ["21", "", "2"]
  {
    ShortRowState();
    assert StripQuotes("2") == "2";
  }

  /** The four NAICS columns. */
  const NaicsHeaders: seq<string> := ["Code", "Description", "Level", "Parent_Code"]

  /** A record under the four NAICS columns, built name by name. */
  lemma NaicsRecord(values: seq<string>)
    ensures BuildRecord(NaicsHeaders, values) ==
      map["Code" := Cell(values, 0), "Description" := Cell(values, 1),
          "Level" := Cell(values, 2), "Parent_Code" := Cell(values, 3)]
  {
    var hs := NaicsHeaders;
    assert hs[..0] == [];
    assert hs[..1][..0] == [];
    assert hs[..2][..1] == hs[..1];
    assert hs[..3][..2] == hs[..2];
    assert hs[..4] == hs;
    assert BuildRecord(hs[..1], values) == map["Code" := Cell(values, 0)];
    assert BuildRecord(hs[..2], values) == map["Code" := Cell(values, 0), "Description" := Cell(values, 1)];
    assert BuildRecord(hs[..3], values) ==
      map["Code" := Cell(values, 0), "Description" := Cell(values, 1), "Level" := Cell(values, 2)];
  }

  /** Three values under four headers: the fourth column reads "". */
  lemma ShortRowScenario()
    ensures BuildRecord(NaicsHeaders, Fields("\"21\",,2"))
      == map["Code" := "21", "Description" := "", "Level" := "2", "Parent_Code" := ""]
  {
    ShortRowFields();
    NaicsRecord(["21", "", "2"]);
  }

  /** The scanner state after `a,"`: one value closed, inside quotes. */
  lemma OpenQuoteState()
    ensures Run("a,\"") == ScanState(true, "", ["a"])
  {
    assert "a,\""[..2] == "a,";
    assert "a,"[..1] == "a";
    assert "a"[..0] == [];
  }

  /** An unclosed quote swallows the rest of the line, commas included. */
  lemma UnclosedQuoteScenario()
    ensures Fields("a,\"b,c") == ["a", "b,c"]
  {
    OpenQuoteState();
    UnclosedQuoteMerges("a,\"", "b,c");
    assert "a,\"" + "b,c" == "a,\"b,c";
    assert "" + "b,c" == "b,c";
  }

  /** The tokens of a header line holding a quoted comma. */
  lemma QuotedHeaderTokens()
    ensures Split("\"Oil, Gas\"", ',') == ["\"Oil", " Gas\""]
  {
    var tokens := ["\"Oil", " Gas\""];
    assert Join(tokens, ",") == "\"Oil, Gas\"";
    SplitJoin(tokens, ',');
  }

  /** The two tokens lose their outer quotes. */
  lemma QuotedHeaderTokensStripped()
    ensures StripQuotes("\"Oil") == "Oil"
    ensures StripQuotes(" Gas\"") == " Gas"
  {
    assert "\"Oil"[1..] == "Oil";
    assert " Gas\""[..4] == " Gas";
  }

  /** The header line is split on every comma, quotes or not: a quoted
      name holding a comma becomes two names. */
  lemma QuotedHeaderCommaSplits()
    ensures Headers("\"Oil, Gas\"") == ["Oil", " Gas"]
  {
    var line := "\"Oil, Gas\"";
    assert Lines(line) == [line] by {
      assert forall i | 0 <= i < |line| :: line[i] != '\n';
      SplitNone(line, '\n');
    }
    assert Split(line, ',') == ["\"Oil", " Gas\""] by {
      QuotedHeaderTokens();
    }
    QuotedHeaderTokensStripped();
  }

  /** A CRLF header line: the last name keeps its carriage return. */
  lemma CarriageReturnHeader()
    ensures Headers("A,B\r") == ["A", "B\r"]
  {
    var hs := [Bare("A"), Bare("B\r")];
    WriteLineSnoc([Bare("A")], Bare("B\r"));
    assert [Bare("A")] + [Bare("B\r")] == hs;
    assert WriteLine(hs) == "A,B\r";
    HeaderRoundTrip(hs);
    assert ValuesOf(hs) == ["A", "B\r"];
  }

  /** A CRLF data line: the last value keeps its carriage return. */
  lemma CarriageReturnValues()
    ensures Fields("1,2\r") == ["1", "2\r"]
  {
    var ws := [Bare("1"), Bare("2\r")];
    WriteLineSnoc([Bare("1")], Bare("2\r"));
    assert [Bare("1")] + [Bare("2\r")] == ws;
    assert WriteLine(ws) == "1,2\r";
    WrittenRoundTrip(ws);
    assert ValuesOf(ws) == ["1", "2\r"];
  }

  /** The record of the CRLF data line. */
  lemma CarriageReturnRecord()
    ensures BuildRecord(["A", "B\r"], ["1", "2\r"]) == map["A" := "1", "B\r" := "2\r"]
  {
    var hs := ["A", "B\r"];
    assert hs[..1][..0] == [];
    assert hs[..1] == ["A"];
  }

  /** The two CRLF lines hold no line feed, and the data line is not blank. */
  lemma CarriageReturnLines()
    ensures '\n' !in "A,B\r" && '\n' !in "1,2\r"
    ensures !IsBlank("1,2\r")
  {
    var h, line := "A,B\r", "1,2\r";
    assert forall i | 0 <= i < |line| :: line[i] != '\n';
    assert forall i | 0 <= i < |h| :: h[i] != '\n';
    assert !IsWhitespace(line[0]);
  }

  /** The CRLF text gives the record of its one data line. */
  lemma CarriageReturnParse()
    ensures Parse("A,B\r" + "\n" + "1,2\r") == [BuildRecord(Headers("A,B\r"), Fields("1,2\r"))]
  {
    CarriageReturnLines();
    HeaderOnly("A,B\r");
    ParseAppendLine("A,B\r", "1,2\r");
  }

  /** With CRLF line ends the carriage return stays on the last header name
      and on the last value of each line. */
  lemma CarriageReturnKept()
    ensures Parse("A,B\r\n1,2\r") == [map["A" := "1", "B\r" := "2\r"]]
  {
    assert "A,B\r\n1,2\r" == "A,B\r" + "\n" + "1,2\r";
    CarriageReturnParse();
    CarriageReturnHeader();
    CarriageReturnValues();
    CarriageReturnRecord();
  }
}
