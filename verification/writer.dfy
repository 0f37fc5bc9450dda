/** The writing side of the format the parser reads: a value is written
    either bare or between double quotes, and the values of a line are
    separated by commas. The parser's behaviour is stated against this
    writer: what is written this way is read back. */
module Writer {
  import opened Text

  /** How one value is written in a line. */
  datatype Written = Quoted(value: string) | Bare(value: string)

  /** `"` + `v` + `"`. */
  function Quote(v: string): string
  {
    ['"'] + v + ['"']
  }

  /** The characters a written value occupies in its line. */
  function Encode(w: Written): string
  {
    match w
    case Quoted(v) => Quote(v)
    case Bare(v) => v
  }

  /** The values of a line, each written its own way, separated by commas. */
  function WriteLine(ws: seq<Written>): string
  {
    Join(seq(|ws|, i requires 0 <= i < |ws| => Encode(ws[i])), ",")
  }

  /** The values carried by `ws`, in order. */
  function ValuesOf(ws: seq<Written>): (vs: seq<string>)
    ensures |vs| == |ws|
  {
    seq(|ws|, i requires 0 <= i < |ws| => ws[i].value)
  }

  /** Writing one more value appends a comma and its characters. */
  lemma WriteLineSnoc(ws: seq<Written>, w: Written)
    requires |ws| > 0
    ensures WriteLine(ws + [w]) == WriteLine(ws) + "," + Encode(w)
  {
    var parts := seq(|ws|, i requires 0 <= i < |ws| => Encode(ws[i]));
    assert seq(|ws + [w]|, i requires 0 <= i < |ws + [w]| => Encode((ws + [w])[i])) == parts + [Encode(w)];
    JoinSnoc(parts, Encode(w), ",");
  }

  /** One more written value adds its value at the end. */
  lemma ValuesOfSnoc(ws: seq<Written>, w: Written)
    ensures ValuesOf(ws + [w]) == ValuesOf(ws) + [w.value]
  {
  }
}
