/** Building one record from the header names and a line's values
    (generate_naics_html.js:35-38). Names are paired with values by position;
    a missing value reads as the empty string and values past the last header
    are ignored. The record is a JavaScript object, modelled as a map from
    name to value: assignments happen in header order, so when a name occurs
    twice the value at its later position is the one kept. */
module Records {

  /** One parsed data line: column name to cell text. */
  type Record = map<string, string>

  /** `values[index] || ''`: the value at `i`, or "" past the end. An empty
      value is falsy in JavaScript, so it also yields "", the same text. */
  function Cell(values: seq<string>, i: nat): string
  {
    if i < |values| then values[i] else []
  }

  /** JavaScript's `||` fallback: the cell is "" exactly when the index is
      past the row (`undefined`) or the value is empty (falsy), and otherwise
      the value itself. */
  lemma CellFallback(values: seq<string>, i: nat)
    ensures Cell(values, i) == [] <==> (i >= |values| || values[i] == [])
    ensures Cell(values, i) != [] ==> Cell(values, i) == values[i]
  {
  }

  /** The `forEach` at generate_naics_html.js:36-38, one assignment per
      header name in order. The keys are exactly the header names. */
  function BuildRecord(headers: seq<string>, values: seq<string>): (r: Record)
    ensures r.Keys == set h | h in headers
    decreases |headers|
  {
    if headers == [] then map[]
    else
      var n := |headers| - 1;
      assert headers == headers[..n] + [headers[n]];
      BuildRecord(headers[..n], values)[headers[n] := Cell(values, n)]
  }

  /** Every name holds the value at its last position among the headers:
      an earlier position of a repeated name is overwritten. */
  lemma {:induction false} LastPositionWins(headers: seq<string>, values: seq<string>, i: nat)
    requires i < |headers|
    requires headers[i] !in headers[i+1..]
    ensures BuildRecord(headers, values)[headers[i]] == Cell(values, i)
    decreases |headers|
  {
    var n := |headers| - 1;
    if i < n {
      var init := headers[..n];
      assert init[i+1..] == headers[i+1..n];
      assert headers[n] == headers[i+1..][n-i-1];
      LastPositionWins(init, values, i);
    }
  }

  /** Every value of the record is one of `values` or "": the record only
      ever stores `values[index] || ''`. */
  lemma {:induction false} BuildRecordValuesFromRow(headers: seq<string>, values: seq<string>)
    ensures forall k :: k in BuildRecord(headers, values) ==>
      BuildRecord(headers, values)[k] == [] || BuildRecord(headers, values)[k] in values
    decreases |headers|
  {
    if headers != [] {
      BuildRecordValuesFromRow(headers[..|headers|-1], values);
    }
  }

  /** A character absent from every value of the row is absent from every
      value of the record. */
  lemma BuildRecordLacks(headers: seq<string>, values: seq<string>, c: char)
    requires forall i :: 0 <= i < |values| ==> c !in values[i]
    ensures forall k :: k in BuildRecord(headers, values) ==> c !in BuildRecord(headers, values)[k]
  {
    BuildRecordValuesFromRow(headers, values);
  }

  /** The record depends on the first `|headers|` cells only. */
  lemma {:induction false} BuildRecordSameCells(headers: seq<string>, values: seq<string>, others: seq<string>)
    requires forall i :: 0 <= i < |headers| ==> Cell(values, i) == Cell(others, i)
    ensures BuildRecord(headers, values) == BuildRecord(headers, others)
    decreases |headers|
  {
    if headers != [] {
      BuildRecordSameCells(headers[..|headers|-1], values, others);
    }
  }

  /** Values past the last header are dropped. */
  lemma ExtraValuesDropped(headers: seq<string>, values: seq<string>)
    requires |values| >= |headers|
    ensures BuildRecord(headers, values) == BuildRecord(headers, values[..|headers|])
  {
    BuildRecordSameCells(headers, values, values[..|headers|]);
  }

  /** A short row is padded: appending empty values changes nothing. */
  lemma ShortRowPadded(headers: seq<string>, values: seq<string>, k: nat)
    ensures BuildRecord(headers, values) == BuildRecord(headers, values + seq(k, _ => []))
  {
    BuildRecordSameCells(headers, values, values + seq(k, _ => []));
  }

  /** With distinct header names every name holds the value at its own
      position, or "" when the row is too short. */
  lemma DistinctHeadersPairByPosition(headers: seq<string>, values: seq<string>)
    requires forall i, j :: 0 <= i < j < |headers| ==> headers[i] != headers[j]
    ensures forall i :: 0 <= i < |headers| ==> BuildRecord(headers, values)[headers[i]] == Cell(values, i)
  {
    forall i | 0 <= i < |headers|
      ensures BuildRecord(headers, values)[headers[i]] == Cell(values, i)
    {
      LastPositionWins(headers, values, i);
    }
  }
}
