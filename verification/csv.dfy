/**
 * The CSV text the report builders write, and a reader for it.
 *
 * The builders put a field on a line in one of three ways: as is (`Raw`), between
 * double quotes without escaping (`Wrapped`), or between double quotes with every
 * inner double quote doubled (`Quoted`, the rule of section 2, item 7 of RFC 4180).
 * `ParseRecord` reads one line the way an RFC 4180 reader does, so the lemmas below
 * say which encodings give the field back.
 */
module Csv {
  import opened Wrappers
  import Text

  /** Doubles every double quote. */
  function Escape(s: string): (r: string)
    ensures |r| >= |s|
    ensures '"' !in s ==> r == s
    decreases |s|
  {
    if |s| == 0 then ""
    else if s[0] == '"' then "\"\"" + Escape(s[1..])
    else [s[0]] + Escape(s[1..])
  }

  /** Escaping lengthens the text by one character per double quote in it. */
  lemma {:induction false} EscapeLength(s: string)
    ensures |Escape(s)| == |s| + multiset(s)['"']
    decreases |s|
  {
    if |s| > 0 {
      EscapeLength(s[1..]);
      assert s == [s[0]] + s[1..];
    }
  }

  /** Escaping adds only double quotes: every other character is in the result exactly when it is in the input. */
  lemma {:induction false} EscapeAddsOnlyQuotes(s: string, c: char)
    requires c != '"'
    ensures c in Escape(s) <==> c in s
    decreases |s|
  {
    if |s| > 0 {
      EscapeAddsOnlyQuotes(s[1..], c);
      assert s == [s[0]] + s[1..];
    }
  }

  /** Turns every doubled double quote back into one. */
  function Unescape(s: string): string
    decreases |s|
  {
    if |s| == 0 then ""
    else if |s| >= 2 && s[0] == '"' && s[1] == '"' then "\"" + Unescape(s[2..])
    else [s[0]] + Unescape(s[1..])
  }

  lemma {:induction false} UnescapeEscape(s: string)
    ensures Unescape(Escape(s)) == s
    decreases |s|
  {
    if |s| > 0 {
      var e := Escape(s);
      if s[0] == '"' {
        assert e[2..] == Escape(s[1..]);
      } else {
        assert e[1..] == Escape(s[1..]);
      }
      UnescapeEscape(s[1..]);
      assert s == [s[0]] + s[1..];
    }
  }

  /** How a report builder writes one field. */
  datatype Cell = Raw(text: string) | Wrapped(text: string) | Quoted(text: string)

  function Encode(c: Cell): string {
    match c
    case Raw(t) => t
    case Wrapped(t) => "\"" + t + "\""
    case Quoted(t) => "\"" + Escape(t) + "\""
  }

  /**
   * Each writing keeps the text recognisable: as is, or between a pair of quotes,
   * where undoubling the quotes of a `Quoted` field gives the text back.
   */
  lemma EncodeUnwraps(c: Cell)
    ensures var r := Encode(c);
      && (c.Raw? ==> r == c.text)
      && (!c.Raw? ==> |r| >= 2 && r[0] == '"' && r[|r| - 1] == '"')
      && (c.Wrapped? ==> r[1..|r| - 1] == c.text)
      && (c.Quoted? ==> Unescape(r[1..|r| - 1]) == c.text)
  {
    if c.Quoted? {
      UnescapeEscape(c.text);
      var e := Escape(c.text);
      assert Encode(c)[1..|Encode(c)| - 1] == e;
    } else if c.Wrapped? {
      assert Encode(c)[1..|Encode(c)| - 1] == c.text;
    }
  }

  /** The encodings a reader gives back unchanged. */
  predicate Recoverable(c: Cell) {
    match c
    case Raw(t) => ',' !in t && (|t| == 0 || t[0] != '"')
    case Wrapped(t) => '"' !in t
    case Quoted(_) => true
  }

  function Encodings(cells: seq<Cell>): (r: seq<string>)
    ensures |r| == |cells|
    decreases |cells|
  {
    if |cells| == 0 then [] else [Encode(cells[0])] + Encodings(cells[1..])
  }

  function Texts(cells: seq<Cell>): (r: seq<string>)
    ensures |r| == |cells|
    ensures forall i :: 0 <= i < |cells| ==> r[i] == cells[i].text
    decreases |cells|
  {
    if |cells| == 0 then [] else [cells[0].text] + Texts(cells[1..])
  }

  /** One line of a report: the encoded fields joined with commas. */
  function EncodeRecord(cells: seq<Cell>): string {
    Text.Join(Encodings(cells), ",")
  }

  lemma {:induction false} EncodingAt(cells: seq<Cell>, i: nat)
    requires i < |cells|
    ensures Encodings(cells)[i] == Encode(cells[i])
    decreases i
  {
    if i > 0 {
      EncodingAt(cells[1..], i - 1);
    }
  }

  /** A line whose encoded fields hold no comma splits at its commas into exactly those encodings. */
  lemma EncodeRecordSplitsAtCommas(cells: seq<Cell>)
    requires |cells| > 0
    requires forall i :: 0 <= i < |cells| ==> ',' !in Encode(cells[i])
    ensures Text.Split(EncodeRecord(cells), ',') == Encodings(cells)
  {
    var es := Encodings(cells);
    forall i | 0 <= i < |es|
      ensures ',' !in es[i]
    {
      EncodingAt(cells, i);
    }
    Text.SplitJoin(es, ',');
  }


  /** Encoding adds only commas and double quotes, so a line holds no other character its fields lack. */
  lemma EncodeRecordAvoids(cells: seq<Cell>, c: char)
    requires c != ',' && c != '"'
    requires forall i :: 0 <= i < |cells| ==> c !in cells[i].text
    ensures c !in EncodeRecord(cells)
  {
    var e := Encodings(cells);
    forall i | 0 <= i < |e| ensures c !in e[i] {
      EncodingAt(cells, i);
      EscapeAddsOnlyQuotes(cells[i].text, c);
    }
    Text.JoinAvoids(e, ",", c);
  }

  /**
   * Reads the rest of a quoted field after its opening quote: two quotes stand for
   * one, a single quote closes the field. Yields the text and what follows the
   * closing quote.
   */
  function ReadQuoted(s: string): (r: Option<(string, string)>)
    ensures r.Some? ==> |r.value.1| < |s|
    decreases |s|
  {
    if |s| == 0 then None
    else if s[0] == '"' then
      if |s| >= 2 && s[1] == '"' then
        match ReadQuoted(s[2..])
        case None => None
        case Some((t, rest)) => Some(("\"" + t, rest))
      else Some(("", s[1..]))
    else
      match ReadQuoted(s[1..])
      case None => None
      case Some((t, rest)) => Some(([s[0]] + t, rest))
  }

  /** Reads an unquoted field: everything up to the next comma. */
  function ReadRaw(s: string): (r: (string, string))
    ensures r.0 + r.1 == s
    ensures ',' !in r.0
    ensures |r.1| == 0 || r.1[0] == ','
  {
    match Text.IndexOf(s, ',')
    case None => (s, "")
    case Some(k) =>
      assert s[..k] + s[k..] == s;
      (s[..k], s[k..])
  }

  function ReadField(s: string): (r: Option<(string, string)>)
    ensures r.Some? ==> |r.value.1| <= |s|
  {
    if |s| > 0 && s[0] == '"' then ReadQuoted(s[1..]) else Some(ReadRaw(s))
  }

  /** The fields of one CSV line, or None when a quoted field is malformed. */
  function ParseRecord(s: string): (r: Option<seq<string>>)
    ensures r.Some? ==> |r.value| > 0
    decreases |s|
  {
    match ReadField(s)
    case None => None
    case Some((t, rest)) =>
      if |rest| == 0 then Some([t])
      else if rest[0] != ',' then None
      else
        match ParseRecord(rest[1..])
        case None => None
        case Some(ts) => Some([t] + ts)
  }

  /** A doubled quote inside a quoted field reads as one quote. */
  lemma ReadQuotedDoubled(more: string, u: string, rest: string)
    requires ReadQuoted(more) == Some((u, rest))
    ensures ReadQuoted("\"\"" + more) == Some(("\"" + u, rest))
  {
    var s := "\"\"" + more;
    assert s[0] == '"' && s[1] == '"' && s[2..] == more;
  }

  /** Any other character inside a quoted field reads as itself. */
  lemma ReadQuotedPlain(c: char, more: string, u: string, rest: string)
    requires c != '"'
    requires ReadQuoted(more) == Some((u, rest))
    ensures ReadQuoted([c] + more) == Some(([c] + u, rest))
  {
    var s := [c] + more;
    assert s[0] == c && s[1..] == more;
  }

  lemma {:induction false} ReadQuotedEscape(t: string, rest: string)
    requires |rest| == 0 || rest[0] != '"'
    ensures ReadQuoted(Escape(t) + "\"" + rest) == Some((t, rest))
    decreases |t|
  {
    if |t| == 0 {
      ReadQuotedEscapeEmpty(t, rest);
    } else {
      ReadQuotedEscape(t[1..], rest);
      ReadQuotedEscapeStep(t, rest);
    }
  }

  lemma ReadQuotedEscapeEmpty(t: string, rest: string)
    requires |t| == 0
    requires |rest| == 0 || rest[0] != '"'
    ensures ReadQuoted(Escape(t) + "\"" + rest) == Some((t, rest))
  {
    var s := "\"" + rest;
    assert Escape(t) + "\"" + rest == s;
    assert s[0] == '"' && s[1..] == rest;
  }

  /** Reading back the escape of `t` follows from reading back the escape of its tail. */
  lemma ReadQuotedEscapeStep(t: string, rest: string)
    requires |t| > 0
    requires ReadQuoted(Escape(t[1..]) + "\"" + rest) == Some((t[1..], rest))
    ensures ReadQuoted(Escape(t) + "\"" + rest) == Some((t, rest))
  {
    var more := Escape(t[1..]) + "\"" + rest;
    if t[0] == '"' {
      EscapeQuoteStep(t, rest);
      ReadQuotedDoubled(more, t[1..], rest);
      assert t == "\"" + t[1..];
    } else {
      EscapePlainStep(t, rest);
      ReadQuotedPlain(t[0], more, t[1..], rest);
      assert t == [t[0]] + t[1..];
    }
  }

  lemma EscapeQuoteStep(t: string, rest: string)
    requires |t| > 0 && t[0] == '"'
    ensures Escape(t) + "\"" + rest == "\"\"" + (Escape(t[1..]) + "\"" + rest)
  {
    var e := Escape(t[1..]);
    assert Escape(t) == "\"\"" + e;
    Text.AppendAssoc("\"\"", e, "\"", rest);
  }

  lemma EscapePlainStep(t: string, rest: string)
    requires |t| > 0 && t[0] != '"'
    ensures Escape(t) + "\"" + rest == [t[0]] + (Escape(t[1..]) + "\"" + rest)
  {
    var e := Escape(t[1..]);
    assert Escape(t) == [t[0]] + e;
    Text.AppendAssoc([t[0]], e, "\"", rest);
  }

  lemma ReadRawPlain(t: string, rest: string)
    requires ',' !in t
    requires |rest| == 0 || rest[0] == ','
    ensures ReadRaw(t + rest) == (t, rest)
  {
    var s := t + rest;
    if |rest| == 0 {
      assert s == t;
    } else {
      Text.IndexOfAfter(t, ',', rest[1..]);
      assert s == t + [','] + rest[1..];
      assert s[..|t|] == t && s[|t|..] == rest;
    }
  }

  /** A quoted field with doubled inner quotes reads back as its text. */
  lemma ReadFieldQuoted(t: string, rest: string)
    requires |rest| == 0 || rest[0] == ','
    ensures ReadField("\"" + Escape(t) + "\"" + rest) == Some((t, rest))
  {
    var body := Escape(t) + "\"" + rest;
    var s := "\"" + Escape(t) + "\"" + rest;
    assert s == "\"" + body;
    assert |s| > 0 && s[0] == '"' && s[1..] == body;
    ReadQuotedEscape(t, rest);
    assert ReadField(s) == ReadQuoted(body);
  }

  lemma ReadFieldEncode(c: Cell, rest: string)
    requires Recoverable(c)
    requires |rest| == 0 || rest[0] == ','
    ensures ReadField(Encode(c) + rest) == Some((c.text, rest))
  {
    match c
    case Raw(t) =>
      ReadRawPlain(t, rest);
    case Wrapped(t) =>
      assert Escape(t) == t;
      ReadFieldQuoted(t, rest);
    case Quoted(t) =>
      ReadFieldQuoted(t, rest);
  }

  /** A line whose fields are all recoverable reads back as the texts of its fields. */
  lemma {:induction false} ParseEncodeRecord(cells: seq<Cell>)
    requires |cells| > 0
    requires forall i :: 0 <= i < |cells| ==> Recoverable(cells[i])
    ensures ParseRecord(EncodeRecord(cells)) == Some(Texts(cells))
    decreases |cells|
  {
    var es := Encodings(cells);
    if |cells| == 1 {
      assert EncodeRecord(cells) == Encode(cells[0]) + "";
      ReadFieldEncode(cells[0], "");
      assert Texts(cells) == [cells[0].text];
    } else {
      var tail := EncodeRecord(cells[1..]);
      assert es[1..] == Encodings(cells[1..]);
      var rest := "," + tail;
      assert EncodeRecord(cells) == Encode(cells[0]) + rest;
      ReadFieldEncode(cells[0], rest);
      assert rest[1..] == tail;
      ParseEncodeRecord(cells[1..]);
    }
  }

  /** Fields written as is. */
  function RawCells(ts: seq<string>): (cells: seq<Cell>)
    ensures |cells| == |ts| && forall i :: 0 <= i < |ts| ==> cells[i] == Raw(ts[i])
  {
    seq(|ts|, i requires 0 <= i < |ts| => Raw(ts[i]))
  }

  /** A line of fields written as is reads back when no field has a comma or starts with a quote. */
  lemma RawRecordParses(ts: seq<string>)
    requires |ts| > 0
    requires forall i :: 0 <= i < |ts| ==> ',' !in ts[i] && (|ts[i]| == 0 || ts[i][0] != '"')
    ensures ParseRecord(EncodeRecord(RawCells(ts))) == Some(ts)
  {
    var cells := RawCells(ts);
    ParseEncodeRecord(cells);
    assert Texts(cells) == ts;
  }

  /** A line of fields written as is holds no character other than a comma that its fields lack. */
  lemma RawRecordAvoids(ts: seq<string>, c: char)
    requires c != ',' && c != '"'
    requires forall i :: 0 <= i < |ts| ==> c !in ts[i]
    ensures c !in EncodeRecord(RawCells(ts))
  {
    EncodeRecordAvoids(RawCells(ts), c);
  }

  /** A line of two recoverable fields reads back as their texts. */
  lemma PairParses(a: Cell, b: Cell)
    requires Recoverable(a) && Recoverable(b)
    ensures ParseRecord(EncodeRecord([a, b])) == Some([a.text, b.text])
  {
    var cells := [a, b];
    assert forall i :: 0 <= i < |cells| ==> Recoverable(cells[i]);
    ParseEncodeRecord(cells);
    var ts := Texts(cells);
    assert ts[0] == a.text && ts[1] == b.text;
    assert ts == [a.text, b.text];
  }

  /** A line with more than one field is its first field, a comma, and the line of the others. */
  lemma EncodeRecordCons(c: Cell, more: seq<Cell>)
    requires |more| > 0
    ensures EncodeRecord([c] + more) == Encode(c) + "," + EncodeRecord(more)
  {
    assert ([c] + more)[1..] == more;
    assert Encodings([c] + more) == [Encode(c)] + Encodings(more);
    assert (([Encode(c)] + Encodings(more)))[1..] == Encodings(more);
  }

  lemma EncodeRecordSingle(c: Cell)
    ensures EncodeRecord([c]) == Encode(c)
  {
    assert [c][1..] == [];
  }

  /** A comma inside an unquoted field writes the same line as two fields would. */
  lemma CommaInRawField(first: string, second: string, more: seq<Cell>)
    ensures EncodeRecord([Raw(first + "," + second)] + more) == EncodeRecord([Raw(first), Raw(second)] + more)
  {
    var cells := [Raw(first + "," + second)] + more;
    var split := [Raw(first), Raw(second)] + more;
    var rest := Encodings(more);
    assert cells[1..] == more;
    assert split[1..] == [Raw(second)] + more;
    assert split[1..][1..] == more;
    if |more| == 0 {
      assert EncodeRecord(cells) == first + "," + second;
      assert split == [Raw(first), Raw(second)];
      assert Encodings(split) == [first, second];
      assert Text.Join([first, second], ",") == first + "," + Text.Join([second], ",");
    } else {
      var tail := Text.Join(rest, ",");
      assert Encodings(cells) == [first + "," + second] + rest;
      assert Encodings(split[1..]) == [second] + rest;
      assert Encodings(split) == [first] + ([second] + rest);
      assert ([first + "," + second] + rest)[1..] == rest;
      assert ([first] + ([second] + rest))[1..] == [second] + rest;
      assert ([second] + rest)[1..] == rest;
      assert EncodeRecord(cells) == first + "," + second + "," + tail;
      assert Text.Join([second] + rest, ",") == second + "," + tail;
      assert EncodeRecord(split) == first + "," + Text.Join([second] + rest, ",");
    }
  }

  /** A line whose first unquoted field holds one comma reads back with that field in two. */
  lemma SplitRawFieldParses(first: string, second: string, more: seq<Cell>)
    requires Recoverable(Raw(first)) && Recoverable(Raw(second))
    requires forall i :: 0 <= i < |more| ==> Recoverable(more[i])
    ensures ParseRecord(EncodeRecord([Raw(first + "," + second)] + more)) == Some([first, second] + Texts(more))
  {
    var split := [Raw(first), Raw(second)] + more;
    AllRecoverable(Raw(first), Raw(second), more);
    ParseEncodeRecord(split);
    CommaInRawField(first, second, more);
    TextsOfTwoMore(Raw(first), Raw(second), more);
  }

  lemma AllRecoverable(a: Cell, b: Cell, more: seq<Cell>)
    requires Recoverable(a) && Recoverable(b)
    requires forall i :: 0 <= i < |more| ==> Recoverable(more[i])
    ensures forall i :: 0 <= i < |more| + 2 ==> Recoverable(([a, b] + more)[i])
  {
  }

  lemma TextsOfTwoMore(a: Cell, b: Cell, more: seq<Cell>)
    ensures Texts([a, b] + more) == [a.text, b.text] + Texts(more)
  {
    var tail := [b] + more;
    assert ([a, b] + more)[1..] == tail && tail[1..] == more;
  }

  /** A double quote inside a field wrapped without escaping closes the field early, so the line does not read. */
  lemma WrappedQuoteBreaksLine(before: string, after: string, more: seq<Cell>)
    requires '"' !in before
    requires |after| > 0 && after[0] != '"' && after[0] != ','
    ensures ParseRecord(EncodeRecord([Wrapped(before + "\"" + after)] + more)) == None
  {
    var q := "\"";
    var name := before + q + after;
    var line := EncodeRecord([Wrapped(name)] + more);
    var tail := if |more| == 0 then "" else "," + EncodeRecord(more);
    assert line == q + name + q + tail by {
      if |more| == 0 {
        assert [Wrapped(name)] + more == [Wrapped(name)];
        EncodeRecordSingle(Wrapped(name));
      } else {
        EncodeRecordCons(Wrapped(name), more);
        Text.AppendAssoc3(Encode(Wrapped(name)), ",", EncodeRecord(more));
      }
    }
    var rest := after + q + tail;
    assert line == q + (before + q + rest) by {
      QuoteRegroup(before, after, tail);
    }
    assert line[0] == '"' && line[1..] == Escape(before) + q + rest by {
      Text.DropFirst('"', before + q + rest);
    }
    assert |rest| > 0 && rest[0] == after[0];
    ReadQuotedEscape(before, rest);
  }

  /**
   * A double quote followed by a comma inside a field wrapped without escaping closes
   * the field there: the line still reads, but with the field cut in two and a stray
   * quote at the end of the second part.
   */
  lemma WrappedQuoteCommaSplitsField(before: string, after: string, more: seq<Cell>)
    requires '"' !in before
    requires ',' !in after && |after| > 0 && after[0] != '"'
    requires forall i :: 0 <= i < |more| ==> Recoverable(more[i])
    ensures ParseRecord(EncodeRecord([Wrapped(before + "\"," + after)] + more))
      == Some([before, after + "\""] + Texts(more))
  {
    var a, b := Quoted(before), Raw(after + "\"");
    WrappedQuoteCommaSameLine(before, after, more);
    AllRecoverable(a, b, more);
    ParseEncodeRecord([a, b] + more);
    TextsOfTwoMore(a, b, more);
  }

  /** The wrapped field `"before",after"` writes what a quoted `before` then a bare `after"` write. */
  lemma WrappedQuoteCommaSameLine(before: string, after: string, more: seq<Cell>)
    requires '"' !in before
    ensures EncodeRecord([Wrapped(before + "\"," + after)] + more)
      == EncodeRecord([Quoted(before), Raw(after + "\"")] + more)
  {
    var a, b := Quoted(before), Raw(after + "\"");
    var w := Wrapped(before + "\"," + after);
    assert Encode(w) == Encode(a) + "," + Encode(b) by {
      assert Escape(before) == before;
      WrappedRegroup(before, after);
    }
    assert [a, b] + more == [a] + ([b] + more);
    EncodeRecordCons(a, [b] + more);
    if |more| == 0 {
      assert [w] + more == [w] && [b] + more == [b];
      EncodeRecordSingle(w);
      EncodeRecordSingle(b);
    } else {
      EncodeRecordCons(w, more);
      EncodeRecordCons(b, more);
      Text.AppendAssoc(Encode(a), ",", Encode(b), "," + EncodeRecord(more));
      Text.AppendAssoc3(Encode(w), ",", EncodeRecord(more));
      Text.AppendAssoc3(Encode(b), ",", EncodeRecord(more));
    }
  }

  lemma WrappedRegroup(before: string, after: string)
    ensures "\"" + (before + "\"," + after) + "\"" == "\"" + before + "\"" + "," + (after + "\"")
  {
  }

  /** The wrapped field `"before"after"` followed by `tail`, regrouped at the inner quote. */
  lemma QuoteRegroup(before: string, after: string, tail: string)
    ensures "\"" + (before + "\"" + after) + "\"" + tail == "\"" + (before + "\"" + (after + "\"" + tail))
  {
  }
}
