/**
 The quote-aware line parser of BenchmarkCompare.java, and the quoting rules of section 2
 of RFC 4180 that it undoes.
 */
module CsvLine {
  /** The fields still to come when `s` is left to read. */
  function Parse(s: string, inQuotes: bool, sb: string): seq<string>
    decreases |s|
  {
    if s == "" then [sb]
    else if s[0] == '"' then
      if inQuotes && |s| > 1 && s[1] == '"' then Parse(s[2..], inQuotes, sb + ['"'])
      else Parse(s[1..], !inQuotes, sb)
    else if s[0] == ',' && !inQuotes then [sb] + Parse(s[1..], inQuotes, "")
    else Parse(s[1..], inQuotes, sb + [s[0]])
  }

  method ParseCsvLine(line: string) returns (result: seq<string>)
    ensures result == Parse(line, false, "")
  {
    result := [];
    var sb: string := "";
    var inQuotes := false;
    var i := 0;
    while i < |line|
      invariant i <= |line|
      invariant result + Parse(line[i..], inQuotes, sb) == Parse(line, false, "")
    {
      var c := line[i];
      ghost var rest := line[i..];
      assert rest[0] == c && rest[1..] == line[i + 1..];
      if c == '"' {
        if inQuotes && i + 1 < |line| && line[i + 1] == '"' {
          assert rest[2..] == line[i + 2..];
          sb := sb + ['"'];
          i := i + 1;
        } else {
          inQuotes := !inQuotes;
        }
      } else if c == ',' && !inQuotes {
        result := result + [sb];
        sb := "";
      } else {
        sb := sb + [c];
      }
      i := i + 1;
    }
    result := result + [sb];
  }

  // ----- printing

  /** A field is written in quotes, its quotes doubled, or bare. */
  datatype Field = Quoted(text: string) | Bare(text: string) {
    /** Bare fields hold neither commas nor quotes. */
    predicate Legal() {
      Bare? ==> ',' !in text && '"' !in text
    }
  }

  function Doubled(text: string): string {
    if text == "" then ""
    else (if text[0] == '"' then ['"', '"'] else [text[0]]) + Doubled(text[1..])
  }

  function PrintField(f: Field): string {
    match f
    case Quoted(text) => ['"'] + Doubled(text) + ['"']
    case Bare(text) => text
  }

  /** A field in pieces, quoted ones and bare ones; the plain forms are those of one piece. */
  type Pieces = seq<Field>

  /** The pieces one after the other, and then the rest of the line. */
  function PrintPieces(pieces: Pieces, rest: string): string {
    if pieces == [] then rest else PrintField(pieces[0]) + PrintPieces(pieces[1..], rest)
  }

  /** The text before, and then the texts of the pieces one after the other. */
  function TextOf(before: string, pieces: Pieces): string
    decreases |pieces|
  {
    if pieces == [] then before else TextOf(before + pieces[0].text, pieces[1..])
  }

  /** Something bare must come between two quoted pieces: two quotes in a row are an escaped one. */
  ghost predicate LegalPieces(pieces: Pieces) {
    && (forall p :: p in pieces ==> p.Legal())
    && forall i :: 0 <= i < |pieces| - 1 && pieces[i].Quoted? ==> pieces[i + 1].Bare? && pieces[i + 1].text != ""
  }

  function PrintLine(fields: seq<Pieces>): string
    requires fields != []
  {
    PrintPieces(fields[0], if |fields| == 1 then "" else [','] + PrintLine(fields[1..]))
  }

  function Texts(fields: seq<Pieces>): seq<string> {
    if fields == [] then [] else [TextOf("", fields[0])] + Texts(fields[1..])
  }

  // ----- the round trip

  lemma {:induction false} ParseBare(text: string, rest: string, sb: string)
    requires ',' !in text && '"' !in text
    ensures Parse(text + rest, false, sb) == Parse(rest, false, sb + text)
  {
    if text == "" {
      assert text + rest == rest && sb + text == sb;
    } else {
      var s := text + rest;
      assert s[0] == text[0] && text[0] in text && s[1..] == text[1..] + rest;
      ParseBare(text[1..], rest, sb + [text[0]]);
      assert sb + [text[0]] + text[1..] == sb + text;
    }
  }

  lemma {:induction false} ParseDoubled(text: string, rest: string, sb: string)
    ensures Parse(Doubled(text) + rest, true, sb) == Parse(rest, true, sb + text)
    decreases |text|
  {
    if text == "" {
      assert Doubled(text) + rest == rest && sb + text == sb;
    } else {
      var s := Doubled(text) + rest;
      var more := Doubled(text[1..]) + rest;
      if text[0] == '"' {
        assert s == ['"', '"'] + more;
        assert s[2..] == more;
      } else {
        assert s == [text[0]] + more;
        assert s[1..] == more;
      }
      ParseDoubled(text[1..], rest, sb + [text[0]]);
      assert sb + [text[0]] + text[1..] == sb + text;
    }
  }

  /** A quoted piece, followed by anything but a quote. */
  lemma ParseQuoted(text: string, rest: string, sb: string)
    requires rest == "" || rest[0] != '"'
    ensures Parse(['"'] + Doubled(text) + ['"'] + rest, false, sb) == Parse(rest, false, sb + text)
  {
    var tail := ['"'] + rest;
    var s := ['"'] + Doubled(text) + ['"'] + rest;
    assert s[1..] == Doubled(text) + tail;
    ParseDoubled(text, tail, sb);
    assert tail[1..] == rest;
  }

  lemma ParsePiece(p: Field, more: string, sb: string)
    requires p.Legal() && (p.Quoted? ==> more == "" || more[0] != '"')
    ensures Parse(PrintField(p) + more, false, sb) == Parse(more, false, sb + p.text)
  {
    if p.Quoted? {
      ParseQuoted(p.text, more, sb);
    } else {
      ParseBare(p.text, more, sb);
    }
  }

  /** What follows a quoted piece does not begin with a quote. */
  lemma NoQuoteAfter(pieces: Pieces, rest: string)
    requires LegalPieces(pieces) && pieces != [] && (rest == "" || rest[0] == ',')
    ensures LegalPieces(pieces[1..])
    ensures var more := PrintPieces(pieces[1..], rest);
      pieces[0].Quoted? ==> more == "" || more[0] != '"'
  {
    var tail := pieces[1..];
    assert forall p :: p in tail ==> p in pieces;
    assert forall i :: 0 <= i < |tail| ==> tail[i] == pieces[i + 1];
    if pieces[0].Quoted? && tail != [] {
      assert pieces[1] in pieces && pieces[1].text[0] in pieces[1].text;
      assert PrintPieces(tail, rest) == pieces[1].text + PrintPieces(tail[1..], rest);
    }
  }

  /** A printed field, followed by a comma or the end of the line. */
  lemma {:induction false} ParsePieces(pieces: Pieces, rest: string, sb: string)
    requires LegalPieces(pieces) && (rest == "" || rest[0] == ',')
    ensures Parse(PrintPieces(pieces, rest), false, sb) == Parse(rest, false, TextOf(sb, pieces))
    decreases |pieces|
  {
    if pieces != [] {
      assert pieces[0] in pieces;
      NoQuoteAfter(pieces, rest);
      ParsePiece(pieces[0], PrintPieces(pieces[1..], rest), sb);
      ParsePieces(pieces[1..], rest, sb + pieces[0].text);
    }
  }

  /** Whatever the fields and the style chosen for each, parsing a printed line gives the texts back. */
  lemma {:induction false} ParseUndoesPrint(fields: seq<Pieces>)
    requires fields != [] && forall f :: f in fields ==> LegalPieces(f)
    ensures Parse(PrintLine(fields), false, "") == Texts(fields)
  {
    var f := fields[0];
    if |fields| == 1 {
      ParsePieces(f, "", "");
      assert Texts(fields) == [TextOf("", f)] + Texts([]);
    } else {
      var rest := [','] + PrintLine(fields[1..]);
      ParsePieces(f, rest, "");
      assert rest[1..] == PrintLine(fields[1..]);
      ParseUndoesPrint(fields[1..]);
    }
  }

  /** A quote that is never closed: the field goes on to the end of the line. */
  lemma ParseUnclosed(text: string)
    ensures Parse(['"'] + Doubled(text), false, "") == [text]
  {
    assert (['"'] + Doubled(text))[1..] == Doubled(text) + "";
    ParseDoubled(text, "", "");
    assert "" + text == text;
  }

  /** The commas outside quotes, for a reader that is inside quotes or not. */
  function Separators(s: string, inQuotes: bool): nat {
    if s == "" then 0
    else if s[0] == '"' then Separators(s[1..], !inQuotes)
    else (if s[0] == ',' && !inQuotes then 1 else 0) + Separators(s[1..], inQuotes)
  }

  /** Every line at all, well-quoted or not: one field more than there are commas outside quotes. */
  lemma {:induction false} FieldCount(s: string, inQuotes: bool, sb: string)
    ensures |Parse(s, inQuotes, sb)| == Separators(s, inQuotes) + 1
    decreases |s|
  {
    if s != "" {
      if s[0] == '"' {
        if inQuotes && |s| > 1 && s[1] == '"' {
          assert s[1..][1..] == s[2..];
          FieldCount(s[2..], inQuotes, sb + ['"']);
        } else {
          FieldCount(s[1..], !inQuotes, sb);
        }
      } else if s[0] == ',' && !inQuotes {
        FieldCount(s[1..], inQuotes, "");
      } else {
        FieldCount(s[1..], inQuotes, sb + [s[0]]);
      }
    }
  }
}
