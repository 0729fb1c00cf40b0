/**
 * The Grammarian page: a usage table (member, correct use, incorrect use) and a
 * great-phrases table (speaker, phrase), their summaries, and the CSV report in
 * which names are quote-wrapped without escaping and notes are quote-escaped.
 */
module Grammarian {
  import opened Wrappers
  import Text
  import Table
  import Csv

  datatype UsageRow = UsageRow(id: string, name: string, correct: string, incorrect: string)

  datatype PhraseRow = PhraseRow(id: string, speaker: string, phrase: string)

  datatype GrammarianData = GrammarianData(usageRows: seq<UsageRow>, phraseRows: seq<PhraseRow>)

  /** The value the page starts from when nothing is stored. */
  const Default: GrammarianData := GrammarianData([], [])

  /** The editable fields of a usage row; the id is not one of them. */
  datatype UsageField = Name | Correct | Incorrect

  /** The editable fields of a phrase row. */
  datatype PhraseField = Speaker | Phrase

  function GetUsage(row: UsageRow, f: UsageField): string {
    match f
    case Name => row.name
    case Correct => row.correct
    case Incorrect => row.incorrect
  }

  function SetUsage(row: UsageRow, f: UsageField, v: string): (r: UsageRow)
    ensures r.id == row.id && GetUsage(r, f) == v
    ensures forall g :: g != f ==> GetUsage(r, g) == GetUsage(row, g)
  {
    match f
    case Name => row.(name := v)
    case Correct => row.(correct := v)
    case Incorrect => row.(incorrect := v)
  }

  function GetPhrase(row: PhraseRow, f: PhraseField): string {
    match f
    case Speaker => row.speaker
    case Phrase => row.phrase
  }

  function SetPhrase(row: PhraseRow, f: PhraseField, v: string): (r: PhraseRow)
    ensures r.id == row.id && GetPhrase(r, f) == v
    ensures forall g :: g != f ==> GetPhrase(r, g) == GetPhrase(row, g)
  {
    match f
    case Speaker => row.(speaker := v)
    case Phrase => row.(phrase := v)
  }

  /** `addUsageRow`: one row named after its position, with empty notes; the phrase table is untouched. */
  function AddUsageRow(data: GrammarianData, id: string): (r: GrammarianData)
    ensures |r.usageRows| == |data.usageRows| + 1 && r.usageRows[..|data.usageRows|] == data.usageRows
    ensures r.usageRows[|data.usageRows|] == UsageRow(id, Table.SpeakerName(|data.usageRows|), "", "")
    ensures r.phraseRows == data.phraseRows
  {
    data.(usageRows := data.usageRows + [UsageRow(id, Table.SpeakerName(|data.usageRows|), "", "")])
  }

  /** `addPhraseRow`: one row named after its position, with an empty phrase; the usage table is untouched. */
  function AddPhraseRow(data: GrammarianData, id: string): (r: GrammarianData)
    ensures |r.phraseRows| == |data.phraseRows| + 1 && r.phraseRows[..|data.phraseRows|] == data.phraseRows
    ensures r.phraseRows[|data.phraseRows|] == PhraseRow(id, Table.SpeakerName(|data.phraseRows|), "")
    ensures r.usageRows == data.usageRows
  {
    data.(phraseRows := data.phraseRows + [PhraseRow(id, Table.SpeakerName(|data.phraseRows|), "")])
  }

  /** `deleteUsageRow`: the usage rows with the id go; the phrase table is untouched. */
  function DeleteUsageRow(data: GrammarianData, id: string): (r: GrammarianData)
    ensures forall i :: 0 <= i < |r.usageRows| ==> r.usageRows[i].id != id && r.usageRows[i] in data.usageRows
    ensures forall i :: 0 <= i < |data.usageRows| && data.usageRows[i].id != id ==> data.usageRows[i] in r.usageRows
    ensures (forall i :: 0 <= i < |data.usageRows| ==> data.usageRows[i].id != id) ==> r == data
    ensures r.phraseRows == data.phraseRows
  {
    data.(usageRows := Table.Keep(data.usageRows, (row: UsageRow) => row.id != id))
  }

  /** `deletePhraseRow`: the phrase rows with the id go; the usage table is untouched. */
  function DeletePhraseRow(data: GrammarianData, id: string): (r: GrammarianData)
    ensures forall i :: 0 <= i < |r.phraseRows| ==> r.phraseRows[i].id != id && r.phraseRows[i] in data.phraseRows
    ensures forall i :: 0 <= i < |data.phraseRows| && data.phraseRows[i].id != id ==> data.phraseRows[i] in r.phraseRows
    ensures (forall i :: 0 <= i < |data.phraseRows| ==> data.phraseRows[i].id != id) ==> r == data
    ensures r.usageRows == data.usageRows
  {
    data.(phraseRows := Table.Keep(data.phraseRows, (row: PhraseRow) => row.id != id))
  }

  /** `updateUsageRow`: one field of the matching usage rows takes the value; ids and everything else stay. */
  function UpdateUsageRow(data: GrammarianData, id: string, f: UsageField, v: string): (r: GrammarianData)
    ensures |r.usageRows| == |data.usageRows|
    ensures forall i :: 0 <= i < |data.usageRows| ==> r.usageRows[i].id == data.usageRows[i].id
    ensures forall i :: 0 <= i < |data.usageRows| && data.usageRows[i].id == id ==>
      && GetUsage(r.usageRows[i], f) == v
      && (forall g :: g != f ==> GetUsage(r.usageRows[i], g) == GetUsage(data.usageRows[i], g))
    ensures forall i :: 0 <= i < |data.usageRows| && data.usageRows[i].id != id ==> r.usageRows[i] == data.usageRows[i]
    ensures r.phraseRows == data.phraseRows
  {
    data.(usageRows := Table.UpdateWhere(data.usageRows, (row: UsageRow) => row.id == id, (row: UsageRow) => SetUsage(row, f, v)))
  }

  /** `updatePhraseRow`: one field of the matching phrase rows takes the value; ids and everything else stay. */
  function UpdatePhraseRow(data: GrammarianData, id: string, f: PhraseField, v: string): (r: GrammarianData)
    ensures |r.phraseRows| == |data.phraseRows|
    ensures forall i :: 0 <= i < |data.phraseRows| ==> r.phraseRows[i].id == data.phraseRows[i].id
    ensures forall i :: 0 <= i < |data.phraseRows| && data.phraseRows[i].id == id ==>
      && GetPhrase(r.phraseRows[i], f) == v
      && (forall g :: g != f ==> GetPhrase(r.phraseRows[i], g) == GetPhrase(data.phraseRows[i], g))
    ensures forall i :: 0 <= i < |data.phraseRows| && data.phraseRows[i].id != id ==> r.phraseRows[i] == data.phraseRows[i]
    ensures r.usageRows == data.usageRows
  {
    data.(phraseRows := Table.UpdateWhere(data.phraseRows, (row: PhraseRow) => row.id == id, (row: PhraseRow) => SetPhrase(row, f, v)))
  }

  /** The page adds one row to each table that is empty, so both tables have a row to edit. */
  function InitIfEmpty(data: GrammarianData, usageId: string, phraseId: string): (r: GrammarianData)
    ensures |r.usageRows| >= 1 && |r.phraseRows| >= 1
    ensures |data.usageRows| == 0 ==> r.usageRows == [UsageRow(usageId, Table.SpeakerName(0), "", "")]
    ensures |data.phraseRows| == 0 ==> r.phraseRows == [PhraseRow(phraseId, Table.SpeakerName(0), "")]
    ensures |data.usageRows| > 0 ==> r.usageRows == data.usageRows
    ensures |data.phraseRows| > 0 ==> r.phraseRows == data.phraseRows
  {
    var d := if |data.usageRows| == 0 then AddUsageRow(data, usageId) else data;
    if |d.phraseRows| == 0 then AddPhraseRow(d, phraseId) else d
  }

  /** A usage row appears in the summary when either note is not blank. */
  predicate HasUsageNotes(row: UsageRow) {
    !Text.IsBlank(row.correct) || !Text.IsBlank(row.incorrect)
  }

  predicate HasPhrase(row: PhraseRow) {
    !Text.IsBlank(row.phrase)
  }

  /** The "Grammar Usage" entries of the summary: the usage rows with a note, in table order. */
  function UsageSummary(data: GrammarianData): (s: seq<UsageRow>)
    ensures forall i :: 0 <= i < |s| ==> HasUsageNotes(s[i]) && s[i] in data.usageRows
    ensures forall i :: 0 <= i < |data.usageRows| && HasUsageNotes(data.usageRows[i]) ==> data.usageRows[i] in s
    ensures |s| == 0 <==> forall i :: 0 <= i < |data.usageRows| ==> !HasUsageNotes(data.usageRows[i])
  {
    Table.Keep(data.usageRows, HasUsageNotes)
  }

  /** The "Notable Language" entries of the summary: the phrase rows with a phrase, in table order. */
  function PhraseSummary(data: GrammarianData): (s: seq<PhraseRow>)
    ensures forall i :: 0 <= i < |s| ==> HasPhrase(s[i]) && s[i] in data.phraseRows
    ensures forall i :: 0 <= i < |data.phraseRows| && HasPhrase(data.phraseRows[i]) ==> data.phraseRows[i] in s
    ensures |s| == 0 <==> forall i :: 0 <= i < |data.phraseRows| ==> !HasPhrase(data.phraseRows[i])
  {
    Table.Keep(data.phraseRows, HasPhrase)
  }

  /** The summary's placeholder text shows when no row of either table qualifies for it. */
  function ShowsEmptyState(data: GrammarianData): (shown: bool)
    ensures shown <==> |UsageSummary(data)| == 0 && |PhraseSummary(data)| == 0
  {
    && !(exists i :: 0 <= i < |data.usageRows| && HasUsageNotes(data.usageRows[i]))
    && !(exists i :: 0 <= i < |data.phraseRows| && HasPhrase(data.phraseRows[i]))
  }

  /** Filtering keeps order: a row added after the others comes last in the summary if it qualifies. */
  lemma {:induction false} SummaryOfAddedUsageRow(data: GrammarianData, row: UsageRow)
    ensures UsageSummary(data.(usageRows := data.usageRows + [row]))
      == UsageSummary(data) + (if HasUsageNotes(row) then [row] else [])
  {
    Table.KeepAppend(data.usageRows, [row], HasUsageNotes);
    assert [row][1..] == [];
  }

  /** A usage line: the name wrapped in quotes as is, the two notes quoted with inner quotes doubled. */
  function UsageCells(row: UsageRow): (cells: seq<Csv.Cell>)
    ensures Csv.Texts(cells) == [row.name, row.correct, row.incorrect]
    ensures Csv.Recoverable(cells[0]) <==> '"' !in row.name
    ensures Csv.Recoverable(cells[1]) && Csv.Recoverable(cells[2])
  {
    [Csv.Wrapped(row.name), Csv.Quoted(row.correct), Csv.Quoted(row.incorrect)]
  }

  /** A phrase line: the speaker wrapped in quotes as is, the phrase quoted with inner quotes doubled. */
  function PhraseCells(row: PhraseRow): (cells: seq<Csv.Cell>)
    ensures Csv.Texts(cells) == [row.speaker, row.phrase]
    ensures Csv.Recoverable(cells[0]) <==> '"' !in row.speaker
    ensures Csv.Recoverable(cells[1])
  {
    [Csv.Wrapped(row.speaker), Csv.Quoted(row.phrase)]
  }

  const UsageTitle: string := "USAGE TRACKING"
  const UsageHeader: string := "Member Name,Correct Use,Incorrect Use"
  const PhraseTitle: string := "GREAT PHRASES / WORDS"
  const PhraseHeader: string := "Speaker,Phrase / Word"

  /** The lines of the report: the usage section, a blank line, then the phrase section. */
  function CsvLines(data: GrammarianData): (lines: seq<string>)
    ensures |lines| == |data.usageRows| + |data.phraseRows| + 5
    ensures lines[0] == UsageTitle && lines[1] == UsageHeader
    ensures forall i :: 0 <= i < |data.usageRows| ==> lines[2 + i] == Csv.EncodeRecord(UsageCells(data.usageRows[i]))
    ensures lines[2 + |data.usageRows|] == ""
    ensures lines[3 + |data.usageRows|] == PhraseTitle && lines[4 + |data.usageRows|] == PhraseHeader
    ensures forall j :: 0 <= j < |data.phraseRows| ==>
      lines[5 + |data.usageRows| + j] == Csv.EncodeRecord(PhraseCells(data.phraseRows[j]))
  {
    var u := data.usageRows;
    var p := data.phraseRows;
    [UsageTitle, UsageHeader]
    + seq(|u|, i requires 0 <= i < |u| => Csv.EncodeRecord(UsageCells(u[i])))
    + ["", PhraseTitle, PhraseHeader]
    + seq(|p|, j requires 0 <= j < |p| => Csv.EncodeRecord(PhraseCells(p[j])))
  }

  /** The report text: the lines joined with newlines. */
  function CsvText(data: GrammarianData): (r: string)
    ensures |UsageTitle| <= |r| && r[..|UsageTitle|] == UsageTitle
  {
    Text.JoinEnds(CsvLines(data), "\n");
    Text.Join(CsvLines(data), "\n")
  }

  /** No field of the table holds a line break. */
  predicate SingleLineFields(data: GrammarianData) {
    && (forall i :: 0 <= i < |data.usageRows| ==>
         '\n' !in data.usageRows[i].name && '\n' !in data.usageRows[i].correct && '\n' !in data.usageRows[i].incorrect)
    && (forall j :: 0 <= j < |data.phraseRows| ==>
         '\n' !in data.phraseRows[j].speaker && '\n' !in data.phraseRows[j].phrase)
  }

  lemma UsageTitlesHaveNoBreak()
    ensures '\n' !in UsageTitle && '\n' !in UsageHeader
  {
  }

  lemma PhraseTitlesHaveNoBreak()
    ensures '\n' !in PhraseTitle && '\n' !in PhraseHeader
  {
  }

  lemma UsageLineHasNoBreak(row: UsageRow)
    requires '\n' !in row.name && '\n' !in row.correct && '\n' !in row.incorrect
    ensures '\n' !in Csv.EncodeRecord(UsageCells(row))
  {
    var cells := UsageCells(row);
    assert forall k :: 0 <= k < |cells| ==> '\n' !in cells[k].text;
    Csv.EncodeRecordAvoids(cells, '\n');
  }

  lemma PhraseLineHasNoBreak(row: PhraseRow)
    requires '\n' !in row.speaker && '\n' !in row.phrase
    ensures '\n' !in Csv.EncodeRecord(PhraseCells(row))
  {
    var cells := PhraseCells(row);
    assert forall k :: 0 <= k < |cells| ==> '\n' !in cells[k].text;
    Csv.EncodeRecordAvoids(cells, '\n');
  }

  /** When no field holds a line break, splitting the report text at line breaks gives its lines back. */
  lemma CsvTextSplitsIntoLines(data: GrammarianData)
    requires SingleLineFields(data)
    ensures Text.Split(CsvText(data), '\n') == CsvLines(data)
  {
    var lines := CsvLines(data);
    var n := |data.usageRows|;
    UsageTitlesHaveNoBreak();
    PhraseTitlesHaveNoBreak();
    forall i | 0 <= i < |lines| ensures '\n' !in lines[i] {
      if 2 <= i < 2 + n {
        assert lines[2 + (i - 2)] == Csv.EncodeRecord(UsageCells(data.usageRows[i - 2]));
        UsageLineHasNoBreak(data.usageRows[i - 2]);
      } else if 5 + n <= i {
        assert lines[5 + n + (i - 5 - n)] == Csv.EncodeRecord(PhraseCells(data.phraseRows[i - 5 - n]));
        PhraseLineHasNoBreak(data.phraseRows[i - 5 - n]);
      }
    }
    Text.SplitJoin(lines, '\n');
  }

  /** The notes survive any content; the name survives when it holds no quote. */
  lemma UsageLineParses(row: UsageRow)
    requires '"' !in row.name
    ensures Csv.ParseRecord(Csv.EncodeRecord(UsageCells(row))) == Some([row.name, row.correct, row.incorrect])
  {
    var cells := UsageCells(row);
    assert Csv.Recoverable(cells[0]) && Csv.Recoverable(cells[1]) && Csv.Recoverable(cells[2]);
    Csv.ParseEncodeRecord(cells);
    assert Csv.Texts(cells) == [row.name, row.correct, row.incorrect];
  }

  lemma PhraseLineParses(row: PhraseRow)
    requires '"' !in row.speaker
    ensures Csv.ParseRecord(Csv.EncodeRecord(PhraseCells(row))) == Some([row.speaker, row.phrase])
  {
    var cells := PhraseCells(row);
    assert Csv.Recoverable(cells[0]) && Csv.Recoverable(cells[1]);
    Csv.ParseEncodeRecord(cells);
    assert Csv.Texts(cells) == [row.speaker, row.phrase];
  }

  /** Because the name is not escaped, a quote inside it ends the field early and the line no longer reads. */
  lemma QuoteInNameBreaksLine(row: UsageRow, before: string, after: string)
    requires row.name == before + "\"" + after
    requires '"' !in before
    requires |after| > 0 && after[0] != '"' && after[0] != ','
    ensures Csv.ParseRecord(Csv.EncodeRecord(UsageCells(row))) == None
  {
    assert UsageCells(row) == [Csv.Wrapped(row.name)] + [Csv.Quoted(row.correct), Csv.Quoted(row.incorrect)];
    Csv.WrappedQuoteBreaksLine(before, after, [Csv.Quoted(row.correct), Csv.Quoted(row.incorrect)]);
  }

  /** A quote followed by a comma inside a name cuts the name in two, so the line reads as four fields. */
  lemma QuoteCommaInNameShiftsColumns(row: UsageRow, before: string, after: string)
    requires row.name == before + "\"," + after
    requires '"' !in before
    requires ',' !in after && |after| > 0 && after[0] != '"'
    ensures Csv.ParseRecord(Csv.EncodeRecord(UsageCells(row)))
      == Some([before, after + "\"", row.correct, row.incorrect])
  {
    var more := [Csv.Quoted(row.correct), Csv.Quoted(row.incorrect)];
    assert UsageCells(row) == [Csv.Wrapped(row.name)] + more;
    assert forall i :: 0 <= i < |more| ==> Csv.Recoverable(more[i]);
    Csv.WrappedQuoteCommaSplitsField(before, after, more);
    assert Csv.Texts(more) == [row.correct, row.incorrect] by {
      var ts := Csv.Texts(more);
      assert ts[0] == row.correct && ts[1] == row.incorrect;
    }
    FourFields(before, after + "\"", row.correct, row.incorrect);
  }

  lemma FourFields(a: string, b: string, c: string, d: string)
    ensures [a, b] + [c, d] == [a, b, c, d]
  {
  }
}
