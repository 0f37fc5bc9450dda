/** String operations the CSV parser is built from: counting and removing a
    character, JavaScript's `split` with a one-character separator and
    `Array.prototype.join`, the `trim` used by the blank-line filter, and the
    one-leading/one-trailing quote strip `.replace(/^"/, '').replace(/"$/, '')`.

    Sequences are consumed from the right (`s[..|s|-1]` then the last
    element), the shape of a left-to-right scan that has seen one more
    character, so that the lemmas below go by induction on "one more at the
    end". */
module Text {
  import opened Seqs

  /** Number of occurrences of `c` in `s`. */
  function Count(s: string, c: char): (n: nat)
    ensures n <= |s|
    ensures n == 0 <==> c !in s
  {
    if s == [] then 0
    else
      assert s == s[..|s|-1] + [s[|s|-1]];
      Count(s[..|s|-1], c) + (if s[|s|-1] == c then 1 else 0)
  }

  /** Counting distributes over concatenation. */
  lemma {:induction false} CountConcat(a: string, b: string, c: char)
    ensures Count(a + b, c) == Count(a, c) + Count(b, c)
    decreases |b|
  {
    if b == [] {
      assert a + b == a;
    } else {
      var b' := b[..|b|-1];
      assert (a + b)[..|a + b| - 1] == a + b';
      CountConcat(a, b', c);
    }
  }

  /** `s` with every occurrence of `c` deleted, the rest in order. */
  function Remove(s: string, c: char): (r: string)
    ensures c !in r
    ensures |r| == |s| - Count(s, c)
    ensures c !in s ==> r == s
  {
    if s == [] then []
    else
      assert s == s[..|s|-1] + [s[|s|-1]];
      Remove(s[..|s|-1], c) + (if s[|s|-1] == c then [] else [s[|s|-1]])
  }

  /** The elements of `parts` with `sep` between neighbours, as
      `Array.prototype.join` builds it; an empty array joins to "". */
  function Join(parts: seq<string>, sep: string): string
  {
    if |parts| == 0 then []
    else if |parts| == 1 then parts[0]
    else Join(parts[..|parts|-1], sep) + sep + parts[|parts|-1]
  }

  /** A character in neither the parts nor the separator is not in the
      joined text. */
  lemma {:induction false} JoinLacks(parts: seq<string>, sep: string, c: char)
    requires c !in sep
    requires forall i :: 0 <= i < |parts| ==> c !in parts[i]
    ensures c !in Join(parts, sep)
    decreases |parts|
  {
    if |parts| > 1 {
      JoinLacks(parts[..|parts|-1], sep, c);
    }
  }

  /** Joining one more part appends the separator and the part. */
  lemma JoinSnoc(parts: seq<string>, p: string, sep: string)
    requires |parts| > 0
    ensures Join(parts + [p], sep) == Join(parts, sep) + sep + p
  {
    assert (parts + [p])[..|parts|] == parts;
  }

  /** Replacing the last part by a longer one extends the joined text by the
      same characters. */
  lemma JoinExtendLast(parts: seq<string>, extra: string, sep: string)
    requires |parts| > 0
    ensures Join(parts[..|parts|-1] + [parts[|parts|-1] + extra], sep) == Join(parts, sep) + extra
  {
    var init := parts[..|parts|-1];
    if |init| == 0 {
      assert parts == [parts[0]];
    } else {
      JoinSnoc(init, parts[|parts|-1] + extra, sep);
      JoinSnoc(init, parts[|parts|-1], sep);
      assert init + [parts[|parts|-1]] == parts;
    }
  }

  /** Joining two non-empty lists puts one separator between their joins. */
  lemma {:induction false} JoinConcat(a: seq<string>, b: seq<string>, sep: string)
    requires |a| > 0 && |b| > 0
    ensures Join(a + b, sep) == Join(a, sep) + sep + Join(b, sep)
    decreases |b|
  {
    if |b| == 1 {
      JoinSnoc(a, b[0], sep);
      assert a + b == a + [b[0]];
    } else {
      var b' := b[..|b|-1];
      var p := b[|b|-1];
      assert b == b' + [p];
      assert a + b == (a + b') + [p];
      JoinConcat(a, b', sep);
      JoinSnoc(a + b', p, sep);
      JoinSnoc(b', p, sep);
    }
  }

  /** The pieces of `s` between occurrences of `sep`, as JavaScript's
      `String.prototype.split` returns them for a one-character separator:
      there is always at least one piece, and a piece is empty wherever two
      separators touch or `s` starts or ends with `sep`. */
  function Split(s: string, sep: char): (pieces: seq<string>)
    ensures |pieces| == Count(s, sep) + 1
  {
    if s == [] then [[]]
    else
      var init := Split(s[..|s|-1], sep);
      var c := s[|s|-1];
      assert s == s[..|s|-1] + [c];
      if c == sep then init + [[]]
      else init[..|init|-1] + [init[|init|-1] + [c]]
  }

  /** Join undoes Split: the pieces with the separator put back between
      them are the original text. */
  lemma {:induction false} JoinSplit(s: string, sep: char)
    ensures Join(Split(s, sep), [sep]) == s
    decreases |s|
  {
    if s != [] {
      var s' := s[..|s|-1];
      var c := s[|s|-1];
      assert s == s' + [c];
      JoinSplit(s', sep);
      SplitSnoc(s', c, sep);
      if c == sep {
        JoinSnoc(Split(s', sep), [], [sep]);
      } else {
        JoinExtendLast(Split(s', sep), [c], [sep]);
      }
    }
  }

  /** No piece contains the separator. */
  lemma {:induction false} SplitPiecesLack(s: string, sep: char)
    ensures forall i :: 0 <= i < |Split(s, sep)| ==> sep !in Split(s, sep)[i]
    decreases |s|
  {
    if s != [] {
      var s' := s[..|s|-1];
      var c := s[|s|-1];
      assert s == s' + [c];
      SplitPiecesLack(s', sep);
      SplitSnoc(s', c, sep);
    }
  }

  /** Text without the separator is a single piece. */
  lemma SplitNone(s: string, sep: char)
    requires sep !in s
    ensures Split(s, sep) == [s]
  {
    assert Count(s, sep) == 0;
    JoinSplit(s, sep);
  }

  /** Splitting one more character either starts a new piece or extends
      the last one. */
  lemma SplitSnoc(s: string, c: char, sep: char)
    ensures var p := Split(s, sep);
      Split(s + [c], sep) == if c == sep then p + [[]] else p[..|p|-1] + [p[|p|-1] + [c]]
  {
    assert (s + [c])[..|s|] == s;
  }

  /** Extending the last piece of `x + y` extends the last piece of `y`. */
  lemma ExtendLastOfConcat(x: seq<string>, y: seq<string>, c: char)
    requires |y| > 0
    ensures var p := x + y;
      p[..|p|-1] + [p[|p|-1] + [c]] == x + (y[..|y|-1] + [y[|y|-1] + [c]])
  {
    var p := x + y;
    assert p[..|p|-1] == x + y[..|y|-1];
  }

  /** A separator after `t` starts a new piece at the end of its pieces. */
  lemma SplitConcatSep(t: string, b: string, x: seq<string>, sep: char)
    requires Split(t, sep) == x + Split(b, sep)
    ensures Split(t + [sep], sep) == x + Split(b + [sep], sep)
  {
    var y := Split(b, sep);
    assert Split(t + [sep], sep) == Split(t, sep) + [[]] by {
      SplitSnoc(t, sep, sep);
    }
    assert Split(b + [sep], sep) == y + [[]] by {
      SplitSnoc(b, sep, sep);
    }
    assert x + y + [[]] == x + (y + [[]]);
  }

  /** Any other character after `t` extends the last piece of both. */
  lemma SplitConcatOther(t: string, b: string, x: seq<string>, c: char, sep: char)
    requires c != sep
    requires Split(t, sep) == x + Split(b, sep)
    ensures Split(t + [c], sep) == x + Split(b + [c], sep)
  {
    SplitSnoc(t, c, sep);
    SplitSnoc(b, c, sep);
    ExtendLastOfConcat(x, Split(b, sep), c);
  }

  /** Splitting at a separator splits the two sides independently. */
  lemma {:induction false} SplitConcat(a: string, b: string, sep: char)
    ensures Split(a + [sep] + b, sep) == Split(a, sep) + Split(b, sep)
    decreases |b|
  {
    if b == [] {
      assert a + [sep] + b == a + [sep];
      SplitSnoc(a, sep, sep);
    } else {
      var b' := b[..|b|-1];
      var c := b[|b|-1];
      assert b == b' + [c];
      assert a + [sep] + b == a + [sep] + b' + [c];
      SplitConcat(a, b', sep);
      if c == sep {
        SplitConcatSep(a + [sep] + b', b', Split(a, sep), sep);
      } else {
        SplitConcatOther(a + [sep] + b', b', Split(a, sep), c, sep);
      }
    }
  }

  /** Split undoes Join when no part contains the separator. */
  lemma {:induction false} SplitJoin(parts: seq<string>, sep: char)
    requires |parts| > 0
    requires forall i :: 0 <= i < |parts| ==> sep !in parts[i]
    ensures Split(Join(parts, [sep]), sep) == parts
    decreases |parts|
  {
    if |parts| == 1 {
      SplitNone(parts[0], sep);
    } else {
      var init := parts[..|parts|-1];
      var p := parts[|parts|-1];
      assert Join(parts, [sep]) == Join(init, [sep]) + [sep] + p;
      assert Split(Join(init, [sep]), sep) == init by {
        SplitJoin(init, sep);
      }
      assert Split(p, sep) == [p] by {
        SplitNone(p, sep);
      }
      SplitConcat(Join(init, [sep]), p, sep);
      Snoc(parts);
    }
  }

  /** The code points ECMAScript's `String.prototype.trim` removes: the
      WhiteSpace set (tab, vertical tab, form feed, space, no-break space,
      zero-width no-break space and the other space separators of Unicode
      category Zs) and the LineTerminator set (line feed, carriage return,
      line separator, paragraph separator). */
  predicate IsWhitespace(c: char)
  {
    || c == '\t' || c == '\U{B}' || c == '\U{C}' || c == ' '
    || c == '\U{A0}' || c == '\U{FEFF}'
    || c == '\U{1680}' || ('\U{2000}' <= c <= '\U{200A}')
    || c == '\U{202F}' || c == '\U{205F}' || c == '\U{3000}'
    || c == '\n' || c == '\r' || c == '\U{2028}' || c == '\U{2029}'
  }

  /** `s` without its leading whitespace. */
  function TrimStart(s: string): (r: string)
    ensures |r| <= |s| && r == s[|s| - |r|..]
    ensures forall i :: 0 <= i < |s| - |r| ==> IsWhitespace(s[i])
    ensures r == [] || !IsWhitespace(r[0])
  {
    if s != [] && IsWhitespace(s[0]) then TrimStart(s[1..]) else s
  }

  /** `s` without its trailing whitespace. */
  function TrimEnd(s: string): (r: string)
    ensures |r| <= |s| && r == s[..|r|]
    ensures forall i :: |r| <= i < |s| ==> IsWhitespace(s[i])
    ensures r == [] || !IsWhitespace(r[|r|-1])
  {
    if s != [] && IsWhitespace(s[|s|-1]) then TrimEnd(s[..|s|-1]) else s
  }

  /** `String.prototype.trim`: whitespace removed from both ends. */
  function Trim(s: string): string
  {
    TrimEnd(TrimStart(s))
  }

  /** A line is blank exactly when it is nothing but whitespace. */
  predicate IsBlank(s: string)
  {
    forall i :: 0 <= i < |s| ==> IsWhitespace(s[i])
  }

  /** Trimming leaves nothing exactly when every character is whitespace. */
  lemma TrimEmptyIffBlank(s: string)
    ensures Trim(s) == [] <==> IsBlank(s)
  {
    var t := TrimStart(s);
    if Trim(s) == [] {
      assert t == [];
      forall i | 0 <= i < |s|
        ensures IsWhitespace(s[i])
      {
        assert i < |s| - |t|;
      }
    } else {
      var r := Trim(s);
      assert r[0] == t[0];
      assert !IsWhitespace(s[|s| - |t|]);
    }
  }

  /** `.replace(/^"/, '').replace(/"$/, '')`: one leading double quote is
      removed if there is one, then one trailing double quote of what is
      left. The token changes exactly when it starts or ends with a quote,
      and never by more than those two characters. */
  function StripQuotes(t: string): (r: string)
    ensures |r| <= |t| <= |r| + 2
    ensures r == t <==> (t == [] || (t[0] != '"' && t[|t|-1] != '"'))
  {
    var u := if |t| > 0 && t[0] == '"' then t[1..] else t;
    if |u| > 0 && u[|u|-1] == '"' then u[..|u|-1] else u
  }

  /** A token wrapped in one pair of quotes comes back unwrapped, whatever
      it holds. */
  lemma StripQuotesUnwraps(s: string)
    ensures StripQuotes(['"'] + s + ['"']) == s
  {
    var t := ['"'] + s + ['"'];
    assert t[1..] == s + ['"'];
    assert (s + ['"'])[..|s|] == s;
  }

  /** A leading quote is removed on its own: the trailing replacement leaves
      a token that does not end with a quote alone, even when it starts with
      another quote (`""ab` gives `"ab`). */
  lemma StripQuotesLeadingOnly(s: string)
    requires s == [] || s[|s|-1] != '"'
    ensures StripQuotes(['"'] + s) == s
  {
    assert (['"'] + s)[1..] == s;
  }

  /** A trailing quote is removed on its own: the leading replacement leaves
      a token that does not start with a quote alone, even when it ends with
      another quote (`ab""` gives `ab"`). */
  lemma StripQuotesTrailingOnly(s: string)
    requires s == [] || s[0] != '"'
    ensures StripQuotes(s + ['"']) == s
  {
    assert (s + ['"'])[..|s|] == s;
  }
}
