/** The per-line field scanner of `parseCSV` (generate_naics_html.js:16-33).
    A line is read one character at a time with an "inside quotes" flag: a
    double quote only flips the flag, a comma outside quotes closes the
    current field, and every other character (commas inside quotes
    included) is appended to the current field. The last field is closed
    when the line ends. Malformed quoting is not an error: an unmatched
    quote keeps the flag set to the end of the line. */
module Scanner {
  import opened Text
  import opened Writer

  /** The loop's variables: `inQuotes`, `currentValue` and `values`. */
  datatype ScanState = ScanState(inQuotes: bool, current: string, values: seq<string>)

  /** The state before the first character of a line. */
  const Start: ScanState := ScanState(false, [], [])

  /** One iteration of the loop body on character `c`. A closed field goes
      through the same one-quote strip as the header names. */
  function Step(st: ScanState, c: char): ScanState
  {
    if c == '"' then st.(inQuotes := !st.inQuotes)
    else if c == ',' && !st.inQuotes then ScanState(st.inQuotes, [], st.values + [StripQuotes(st.current)])
    else st.(current := st.current + [c])
  }

  /** Neither the open field nor any closed field holds a double quote. */
  predicate QuoteFree(st: ScanState)
  {
    && '"' !in st.current
    && forall i :: 0 <= i < |st.values| ==> '"' !in st.values[i]
  }

  /** The three cases of the loop body. A quote flips the flag and changes
      nothing else; a comma outside quotes, and only that, closes the
      stripped buffer as a new field and empties the buffer; every other
      character, commas inside quotes included, is appended to the buffer. */
  lemma StepCases(st: ScanState, c: char)
    ensures |Step(st, c).values| > |st.values| <==> (c == ',' && !st.inQuotes)
    ensures c == '"' ==> Step(st, c) == st.(inQuotes := !st.inQuotes)
    ensures c == ',' && !st.inQuotes ==>
      Step(st, c) == ScanState(false, [], st.values + [StripQuotes(st.current)])
    ensures c != '"' && (c != ',' || st.inQuotes) ==>
      Step(st, c) == st.(current := st.current + [c])
  {
  }

  /** One step flips the flag exactly on a quote, stores no quote and
      never drops a closed field. */
  lemma StepFacts(st: ScanState, c: char)
    ensures Step(st, c).inQuotes <==> (st.inQuotes != (c == '"'))
    ensures QuoteFree(st) ==> QuoteFree(Step(st, c))
    ensures st.values <= Step(st, c).values
  {
    var cur := st.current;
    if QuoteFree(st) {
      assert cur == [] || (cur[0] != '"' && cur[|cur|-1] != '"');
    }
  }

  /** The loop run from state `st` over the characters of `s`, left to right.
      The flag ends up flipped once per quote character, no quote
      character is ever stored, and the fields closed before are kept as a
      prefix. */
  function Scan(st: ScanState, s: string): (r: ScanState)
    ensures r.inQuotes <==> (st.inQuotes != (Count(s, '"') % 2 == 1))
    ensures QuoteFree(st) ==> QuoteFree(r)
    ensures st.values <= r.values
    decreases |s|
  {
    if s == [] then st
    else
      var prev := Scan(st, s[..|s|-1]);
      StepFacts(prev, s[|s|-1]);
      Step(prev, s[|s|-1])
  }

  /** The loop over a whole line, from the initial state. */
  function Run(line: string): ScanState
  {
    Scan(Start, line)
  }

  /** The loop over one more character takes one more step. */
  lemma RunSnoc(line: string, c: char)
    ensures Run(line + [c]) == Step(Run(line), c)
  {
    assert (line + [c])[..|line|] == line;
  }

  /** The values `parseCSV` produces for one data line: the closed fields
      and then the last, still open, field. There is always at least one, and
      none contains a double quote. */
  function Fields(line: string): (values: seq<string>)
    ensures |values| >= 1
    ensures forall i :: 0 <= i < |values| ==> '"' !in values[i]
  {
    var st := Run(line);
    assert QuoteFree(Start);
    st.values + [StripQuotes(st.current)]
  }

  /** The quote strip applied when a field is closed never changes it: quote
      characters are never stored in the buffer. */
  lemma StripIsNoOp(line: string)
    ensures Fields(line) == Run(line).values + [Run(line).current]
  {
    assert QuoteFree(Start);
    var cur := Run(line).current;
    assert cur == [] || (cur[0] != '"' && cur[|cur|-1] != '"');
  }

  /** A character absent from the line is absent from every value: values
      are pieces of their own line. */
  lemma {:induction false} RunLacks(line: string, c: char)
    requires c !in line
    ensures c !in Run(line).current
    ensures forall i :: 0 <= i < |Run(line).values| ==> c !in Run(line).values[i]
    decreases |line|
  {
    if line != [] {
      var init := line[..|line|-1];
      assert line == init + [line[|line|-1]];
      RunLacks(init, c);
      assert QuoteFree(Start);
      var cur := Run(init).current;
      assert cur == [] || (cur[0] != '"' && cur[|cur|-1] != '"');
    }
  }

  /** No value of a line contains a character the line does not contain. */
  lemma FieldsLack(line: string, c: char)
    requires c !in line
    ensures forall i :: 0 <= i < |Fields(line)| ==> c !in Fields(line)[i]
  {
    RunLacks(line, c);
    StripIsNoOp(line);
  }

  /** Scanning `a + b` is scanning `a` and then `b`. */
  lemma {:induction false} ScanConcat(st: ScanState, a: string, b: string)
    ensures Scan(st, a + b) == Scan(Scan(st, a), b)
    decreases |b|
  {
    if b == [] {
      assert a + b == a;
    } else {
      assert (a + b)[..|a + b| - 1] == a + b[..|b|-1];
      ScanConcat(st, a, b[..|b|-1]);
    }
  }

  /** Whether position `i` of `line` lies between quotes: an odd number of
      quote characters come before it. */
  predicate InsideQuotes(line: string, i: nat)
    requires i <= |line|
  {
    Count(line[..i], '"') % 2 == 1
  }

  /** The positions of the commas of `line` that end a field: those not
      between quotes. */
  function Separators(line: string): set<nat>
  {
    set i: nat | i < |line| && line[i] == ',' && !InsideQuotes(line, i)
  }

  /** One more character adds its own position to the separators when it is
      a comma outside quotes, and nothing else. */
  lemma SeparatorsSnoc(line: string, c: char)
    ensures Separators(line + [c]) ==
      Separators(line) + (if c == ',' && !InsideQuotes(line + [c], |line|) then {|line|} else {})
  {
    var s := line + [c];
    forall i: nat | i < |line|
      ensures s[i] == line[i] && (InsideQuotes(s, i) <==> InsideQuotes(line, i))
    {
      assert s[..i] == line[..i];
    }
  }

  /** The number of closed fields is the number of separators seen, so a
      line yields one value more than it has commas outside quotes. */
  lemma {:induction false} RunCountsSeparators(line: string)
    ensures |Run(line).values| == |Separators(line)|
    decreases |line|
  {
    if line == [] {
      assert Separators(line) == {};
    } else {
      var init := line[..|line|-1];
      var c := line[|line|-1];
      assert line == init + [c];
      RunCountsSeparators(init);
      SeparatorsSnoc(init, c);
      assert line[..|init|] == init;
      assert |line| - 1 !in Separators(init);
    }
  }

  /** Field count: one more than the number of commas outside quotes. */
  lemma FieldCount(line: string)
    ensures |Fields(line)| == |Separators(line)| + 1
  {
    RunCountsSeparators(line);
  }

  /** The closed fields and the open one, joined with commas, are the text
      scanned so far with its quote characters deleted. */
  lemma {:induction false} RunJoin(line: string)
    ensures Join(Run(line).values + [Run(line).current], ",") == Remove(line, '"')
    decreases |line|
  {
    if line != [] {
      var init := line[..|line|-1];
      var c := line[|line|-1];
      RunJoin(init);
      var st := Run(init);
      assert QuoteFree(Start);
      if c == ',' && !st.inQuotes {
        var cur := st.current;
        assert cur == [] || (cur[0] != '"' && cur[|cur|-1] != '"');
        JoinSnoc(st.values + [cur], [], ",");
      } else if c != '"' {
        JoinExtendLast(st.values + [st.current], [c], ",");
        assert (st.values + [st.current])[..|st.values|] == st.values;
      }
    }
  }

  /** Round trip: the values joined with commas give back the line with
      every quote character deleted. */
  lemma FieldsJoin(line: string)
    ensures Join(Fields(line), ",") == Remove(line, '"')
  {
    StripIsNoOp(line);
    RunJoin(line);
  }

  /** Over a line with no quote character the scanner is a plain split on
      commas. */
  lemma {:induction false} RunWithoutQuotes(line: string)
    requires '"' !in line
    ensures !Run(line).inQuotes
    ensures Run(line).values + [Run(line).current] == Split(line, ',')
    decreases |line|
  {
    assert Count(line, '"') == 0;
    if line != [] {
      var init := line[..|line|-1];
      var c := line[|line|-1];
      assert line == init + [c];
      RunWithoutQuotes(init);
      SplitSnoc(init, c, ',');
      var st := Run(init);
      assert QuoteFree(Start);
      if c == ',' {
        var cur := st.current;
        assert cur == [] || (cur[0] != '"' && cur[|cur|-1] != '"');
      } else {
        var p := st.values + [st.current];
        assert p[..|p|-1] == st.values;
      }
    }
  }

  /** For a line with no quote character, the values are exactly the line
      split on commas. */
  lemma FieldsWithoutQuotes(line: string)
    requires '"' !in line
    ensures Fields(line) == Split(line, ',')
  {
    StripIsNoOp(line);
    RunWithoutQuotes(line);
  }

  /** Once inside quotes with no closing quote ahead, every later character,
      commas included, is appended to the open field. */
  lemma {:induction false} UnclosedQuoteAbsorbs(st: ScanState, rest: string)
    requires st.inQuotes
    requires '"' !in rest
    ensures Scan(st, rest) == st.(current := st.current + rest)
    decreases |rest|
  {
    if rest != [] {
      var init := rest[..|rest|-1];
      assert rest == init + [rest[|rest|-1]];
      UnclosedQuoteAbsorbs(st, init);
    }
  }

  /** An unmatched quote merges the rest of the line, commas and all, into
      the last value; no error is raised. */
  lemma UnclosedQuoteMerges(before: string, rest: string)
    requires Run(before).inQuotes
    requires '"' !in rest
    ensures Fields(before + rest) == Run(before).values + [Run(before).current + rest]
  {
    ScanConcat(Start, before, rest);
    UnclosedQuoteAbsorbs(Run(before), rest);
    StripIsNoOp(before + rest);
  }

  /** A value the data-line scanner reads back as written: no quote
      character inside it, and no comma when it is written bare. */
  predicate Readable(w: Written)
  {
    && '"' !in w.value
    && (w.Bare? ==> ',' !in w.value)
  }

  /** Outside quotes, characters other than quotes and commas go to the
      open field. */
  lemma {:induction false} ScanBare(st: ScanState, v: string)
    requires !st.inQuotes
    requires '"' !in v && ',' !in v
    ensures Scan(st, v) == st.(current := st.current + v)
    decreases |v|
  {
    if v != [] {
      var init := v[..|v|-1];
      assert v == init + [v[|v|-1]];
      ScanBare(st, init);
    }
  }

  /** A readable value is read into the open field, whichever way it is
      written, and the flag is back to "outside" afterwards. */
  lemma ScanWritten(st: ScanState, w: Written)
    requires !st.inQuotes
    requires Readable(w)
    ensures Scan(st, Encode(w)) == st.(current := st.current + w.value)
  {
    if w.Bare? {
      ScanBare(st, w.value);
    } else {
      var v := w.value;
      var open := Step(st, '"');
      ScanConcat(st, ['"'], v);
      assert Scan(st, ['"']) == open by {
        assert ['"'][..0] == [];
      }
      UnclosedQuoteAbsorbs(open, v);
      ScanConcat(st, ['"'] + v, ['"']);
      assert Quote(v)[..|Quote(v)| - 1] == ['"'] + v;
    }
  }

  /** After a comma and one more written value, the open field is closed
      and the new value is open. */
  lemma WrittenScanStep(text: string, closed: seq<string>, open: string, w: Written)
    requires Run(text) == ScanState(false, open, closed)
    requires '"' !in open && Readable(w)
    ensures Run(text + "," + Encode(w)) == ScanState(false, w.value, closed + [open])
  {
    var st := Run(text);
    var next := Step(st, ',');
    assert Scan(st, ",") == next by {
      assert ","[..0] == [];
    }
    assert open == [] || (open[0] != '"' && open[|open|-1] != '"');
    ScanConcat(Start, text, ",");
    ScanWritten(next, w);
    ScanConcat(Start, text + ",", Encode(w));
  }

  /** The state a written line leaves: outside quotes, all values but the
      last closed, the last one open. */
  predicate LeavesWritten(line: string, ws: seq<Written>)
    requires |ws| > 0
  {
    Run(line) == ScanState(false, ws[|ws|-1].value, ValuesOf(ws[..|ws|-1]))
  }

  /** LeavesWritten survives a comma and one more readable value. */
  lemma WrittenScanSnoc(ws: seq<Written>)
    requires |ws| > 1
    requires LeavesWritten(WriteLine(ws[..|ws|-1]), ws[..|ws|-1])
    requires '"' !in ws[|ws|-2].value && Readable(ws[|ws|-1])
    ensures LeavesWritten(WriteLine(ws), ws)
  {
    var n := |ws|;
    var init := ws[..n-1];
    var prev := ws[..n-2];
    var open := ws[n-2];
    var w := ws[n-1];
    var line := WriteLine(init);
    assert Run(line) == ScanState(false, open.value, ValuesOf(prev)) by {
      assert init[..n-2] == prev;
    }
    assert WriteLine(ws) == line + "," + Encode(w) by {
      WriteLineSnoc(init, w);
      assert init + [w] == ws;
    }
    assert Run(line + "," + Encode(w)) == ScanState(false, w.value, ValuesOf(prev) + [open.value]) by {
      WrittenScanStep(line, ValuesOf(prev), open.value, w);
    }
    assert ValuesOf(prev) + [open.value] == ValuesOf(init) by {
      ValuesOfSnoc(prev, open);
      assert prev + [open] == init;
    }
  }

  /** The scanner state after a written line. */
  lemma {:induction false} WrittenScan(ws: seq<Written>)
    requires |ws| > 0
    requires forall i :: 0 <= i < |ws| ==> Readable(ws[i])
    ensures LeavesWritten(WriteLine(ws), ws)
    decreases |ws|
  {
    var n := |ws|;
    if n == 1 {
      ScanWritten(Start, ws[0]);
      assert WriteLine(ws) == Encode(ws[0]);
    } else {
      WrittenScan(ws[..n-1]);
      WrittenScanSnoc(ws);
    }
  }

  /** Round trip: a line written from readable values, each bare or
      between quotes, is read back as exactly those values; a quoted value
      may hold commas. */
  lemma WrittenRoundTrip(ws: seq<Written>)
    requires |ws| > 0
    requires forall i :: 0 <= i < |ws| ==> Readable(ws[i])
    ensures Fields(WriteLine(ws)) == ValuesOf(ws)
  {
    WrittenScan(ws);
    StripIsNoOp(WriteLine(ws));
    assert ValuesOf(ws[..|ws|-1]) + [ws[|ws|-1].value] == ValuesOf(ws);
  }

  /** The scanning loop of generate_naics_html.js:16-33, written as the
      source writes it: one pass over the line with a flag, a buffer and the
      list of values so far. It computes `Fields`. */
  method ScanLine(line: string) returns (values: seq<string>)
    ensures |values| > 0
    ensures values == Fields(line)
    ensures |values| == |Separators(line)| + 1
    ensures Join(values, ",") == Remove(line, '"')
  {
    values := [];
    var currentValue: string := [];
    var inQuotes := false;
    var i := 0;
    while i < |line|
      invariant 0 <= i <= |line|
      invariant ScanState(inQuotes, currentValue, values) == Run(line[..i])
    {
      var c := line[i];
      assert line[..i + 1] == line[..i] + [c];
      assert line[..i + 1][..i] == line[..i];
      if c == '"' {
        inQuotes := !inQuotes;
      } else if c == ',' && !inQuotes {
        values := values + [StripQuotes(currentValue)];
        currentValue := [];
      } else {
        currentValue := currentValue + [c];
      }
      i := i + 1;
    }
    assert line[..i] == line;
    values := values + [StripQuotes(currentValue)];
    FieldCount(line);
    FieldsJoin(line);
  }
}
