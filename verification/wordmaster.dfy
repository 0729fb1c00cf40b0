/**
 * The Wordmaster page: the word of the day with its meaning and example, a
 * table of speakers and the sentence in which each used the word, the summary
 * count, and the CSV report.
 */
module Wordmaster {
  import opened Wrappers
  import Text
  import Table
  import Csv

  datatype WordInfo = WordInfo(word: string, meaning: string, example: string)

  /** The value the word card starts from when nothing is stored. */
  const DefaultInfo: WordInfo := WordInfo("", "", "")

  datatype WordField = Word | Meaning | Example

  function GetInfo(info: WordInfo, f: WordField): string {
    match f
    case Word => info.word
    case Meaning => info.meaning
    case Example => info.example
  }

  /** `updateField`: one field of the word card takes the value; the other two stay. */
  function UpdateField(info: WordInfo, f: WordField, v: string): (r: WordInfo)
    ensures GetInfo(r, f) == v
    ensures forall g :: g != f ==> GetInfo(r, g) == GetInfo(info, g)
  {
    match f
    case Word => info.(word := v)
    case Meaning => info.(meaning := v)
    case Example => info.(example := v)
  }

  datatype UsageRow = UsageRow(id: string, name: string, sentence: string)

  /** `addRow`: one row named after its position, with an empty sentence, after the existing rows. */
  function AddRow(rows: seq<UsageRow>, id: string): (r: seq<UsageRow>)
    ensures |r| == |rows| + 1 && r[..|rows|] == rows
    ensures r[|rows|] == UsageRow(id, Table.SpeakerName(|rows|), "")
  {
    rows + [UsageRow(id, Table.SpeakerName(|rows|), "")]
  }

  /** `deleteRow`: the rows with the id go, the others stay in order. */
  function DeleteRow(rows: seq<UsageRow>, id: string): (r: seq<UsageRow>)
    ensures forall i :: 0 <= i < |r| ==> r[i].id != id && r[i] in rows
    ensures forall i :: 0 <= i < |rows| && rows[i].id != id ==> rows[i] in r
    ensures (forall i :: 0 <= i < |rows| ==> rows[i].id != id) ==> r == rows
  {
    Table.Keep(rows, (row: UsageRow) => row.id != id)
  }

  /** `updateName`: the matching rows take the name; ids and sentences stay. */
  function UpdateName(rows: seq<UsageRow>, id: string, name: string): (r: seq<UsageRow>)
    ensures |r| == |rows|
    ensures forall i :: 0 <= i < |rows| ==> r[i].id == rows[i].id && r[i].sentence == rows[i].sentence
    ensures forall i :: 0 <= i < |rows| ==> r[i].name == if rows[i].id == id then name else rows[i].name
  {
    Table.UpdateWhere(rows, (row: UsageRow) => row.id == id, (row: UsageRow) => row.(name := name))
  }

  /** `updateSentence`: the matching rows take the sentence; ids and names stay. */
  function UpdateSentence(rows: seq<UsageRow>, id: string, sentence: string): (r: seq<UsageRow>)
    ensures |r| == |rows|
    ensures forall i :: 0 <= i < |rows| ==> r[i].id == rows[i].id && r[i].name == rows[i].name
    ensures forall i :: 0 <= i < |rows| ==> r[i].sentence == if rows[i].id == id then sentence else rows[i].sentence
  {
    Table.UpdateWhere(rows, (row: UsageRow) => row.id == id, (row: UsageRow) => row.(sentence := sentence))
  }

  /** The page creates one row when it opens on an empty table. */
  function InitIfEmpty(rows: seq<UsageRow>, id: string): (r: seq<UsageRow>)
    ensures |r| >= 1
    ensures |rows| == 0 ==> r == [UsageRow(id, Table.SpeakerName(0), "")]
    ensures |rows| > 0 ==> r == rows
  {
    if |rows| == 0 then AddRow(rows, id) else rows
  }

  predicate UsedWord(row: UsageRow) {
    !Text.IsBlank(row.sentence)
  }

  /** "Total speakers who used the word": the rows whose sentence is not blank. */
  function UsedWordCount(rows: seq<UsageRow>): (n: nat)
    ensures n <= |rows|
    ensures n == 0 <==> forall i :: 0 <= i < |rows| ==> !UsedWord(rows[i])
    ensures n == |rows| <==> forall i :: 0 <= i < |rows| ==> UsedWord(rows[i])
  {
    |Table.Keep(rows, UsedWord)|
  }

  /** The count is exactly the number of positions whose sentence is not blank. */
  lemma UsedWordCountIsPositions(rows: seq<UsageRow>)
    ensures UsedWordCount(rows) == |set j: nat | j < |rows| && UsedWord(rows[j])|
  {
    Table.KeepCount(rows, UsedWord);
    assert (set j: nat | j < |rows| && UsedWord(rows[j])) == Table.Hits(rows, UsedWord, 0);
  }

  /** The summary card shows when the table has a row with a sentence. */
  function ShowsSummary(rows: seq<UsageRow>): (shown: bool)
    ensures shown <==> UsedWordCount(rows) > 0
  {
    |rows| > 0 && exists i :: 0 <= i < |rows| && UsedWord(rows[i])
  }

  /** `data.word || 'Not set'`: the word, or a placeholder when it is empty. */
  function WordOfTheDay(info: WordInfo): (s: string)
    ensures info.word != "" ==> s == info.word
    ensures info.word == "" ==> s == "Not set"
  {
    if info.word == "" then "Not set" else info.word
  }

  const Header: string := "Name,Sentence with Word"

  /** A row line: the name as is, the sentence quoted with inner quotes doubled. */
  function RowCells(row: UsageRow): (cells: seq<Csv.Cell>)
    ensures Csv.Texts(cells) == [row.name, row.sentence]
    ensures Csv.Recoverable(cells[0]) <==> ',' !in row.name && (|row.name| == 0 || row.name[0] != '"')
    ensures Csv.Recoverable(cells[1])
  {
    [Csv.Raw(row.name), Csv.Quoted(row.sentence)]
  }

  /** One line per row, in table order. */
  function RowLines(rows: seq<UsageRow>): (lines: seq<string>)
    ensures |lines| == |rows|
    ensures forall i :: 0 <= i < |rows| ==> lines[i] == Csv.EncodeRecord(RowCells(rows[i]))
    decreases |rows|
  {
    if |rows| == 0 then [] else [Csv.EncodeRecord(RowCells(rows[0]))] + RowLines(rows[1..])
  }

  /**
   * The lines of the report: the word as is, meaning and example quoted with inner
   * quotes doubled, an empty line, the heading, then one line per row.
   */
  function CsvLines(info: WordInfo, rows: seq<UsageRow>): (lines: seq<string>)
    ensures |lines| == 5 + |rows|
    ensures lines[0] == Csv.EncodeRecord([Csv.Raw("Word of the Day"), Csv.Raw(info.word)])
    ensures lines[1] == Csv.EncodeRecord([Csv.Raw("Meaning"), Csv.Quoted(info.meaning)])
    ensures lines[2] == Csv.EncodeRecord([Csv.Raw("Example"), Csv.Quoted(info.example)])
    ensures lines[3] == "" && lines[4] == Header
    ensures forall i :: 0 <= i < |rows| ==> lines[5 + i] == Csv.EncodeRecord(RowCells(rows[i]))
  {
    [ Csv.EncodeRecord([Csv.Raw("Word of the Day"), Csv.Raw(info.word)]),
      Csv.EncodeRecord([Csv.Raw("Meaning"), Csv.Quoted(info.meaning)]),
      Csv.EncodeRecord([Csv.Raw("Example"), Csv.Quoted(info.example)]),
      "", Header ]
    + RowLines(rows)
  }

  /** The report text: the lines joined with newlines. */
  function CsvText(info: WordInfo, rows: seq<UsageRow>): (r: string)
    ensures var first := Csv.EncodeRecord([Csv.Raw("Word of the Day"), Csv.Raw(info.word)]);
      |first| <= |r| && r[..|first|] == first
  {
    Text.JoinEnds(CsvLines(info, rows), "\n");
    Text.Join(CsvLines(info, rows), "\n")
  }

  /** No field of the word card or the table holds a line break. */
  predicate SingleLineFields(info: WordInfo, rows: seq<UsageRow>) {
    && '\n' !in info.word && '\n' !in info.meaning && '\n' !in info.example
    && forall i :: 0 <= i < |rows| ==> '\n' !in rows[i].name && '\n' !in rows[i].sentence
  }

  lemma HeaderHasNoBreak()
    ensures '\n' !in Header
  {
  }

  /** The card labels are plain text: no comma, no quote, no line break. */
  lemma LabelsArePlain()
    ensures forall c :: c in ",\"\n" ==> c !in "Word of the Day" && c !in "Meaning" && c !in "Example"
  {
  }

  lemma RecordHasNoBreak(cells: seq<Csv.Cell>)
    requires forall k :: 0 <= k < |cells| ==> '\n' !in cells[k].text
    ensures '\n' !in Csv.EncodeRecord(cells)
  {
    Csv.EncodeRecordAvoids(cells, '\n');
  }

  /** When no field holds a line break, splitting the report text at line breaks gives its lines back. */
  lemma CsvTextSplitsIntoLines(info: WordInfo, rows: seq<UsageRow>)
    requires SingleLineFields(info, rows)
    ensures Text.Split(CsvText(info, rows), '\n') == CsvLines(info, rows)
  {
    var lines := CsvLines(info, rows);
    assert '\n' !in Header by {
      HeaderHasNoBreak();
    }
    InfoLinesHaveNoBreak(info);
    forall i | 5 <= i < |lines| ensures '\n' !in lines[i] {
      assert lines[5 + (i - 5)] == Csv.EncodeRecord(RowCells(rows[i - 5]));
      RowLineHasNoBreak(rows[i - 5]);
    }
    Text.SplitJoin(lines, '\n');
  }

  lemma InfoLinesHaveNoBreak(info: WordInfo)
    requires '\n' !in info.word && '\n' !in info.meaning && '\n' !in info.example
    ensures '\n' !in Csv.EncodeRecord([Csv.Raw("Word of the Day"), Csv.Raw(info.word)])
    ensures '\n' !in Csv.EncodeRecord([Csv.Raw("Meaning"), Csv.Quoted(info.meaning)])
    ensures '\n' !in Csv.EncodeRecord([Csv.Raw("Example"), Csv.Quoted(info.example)])
  {
    LabelsArePlain();
    RecordHasNoBreak([Csv.Raw("Word of the Day"), Csv.Raw(info.word)]);
    RecordHasNoBreak([Csv.Raw("Meaning"), Csv.Quoted(info.meaning)]);
    RecordHasNoBreak([Csv.Raw("Example"), Csv.Quoted(info.example)]);
  }

  lemma RowLineHasNoBreak(row: UsageRow)
    requires '\n' !in row.name && '\n' !in row.sentence
    ensures '\n' !in Csv.EncodeRecord(RowCells(row))
  {
    RecordHasNoBreak(RowCells(row));
  }

  /** Meaning and example read back whatever they contain. */
  lemma WordInfoLinesParse(info: WordInfo)
    ensures Csv.ParseRecord(CsvLines(info, [])[1]) == Some(["Meaning", info.meaning])
    ensures Csv.ParseRecord(CsvLines(info, [])[2]) == Some(["Example", info.example])
  {
    LabelsArePlain();
    Csv.PairParses(Csv.Raw("Meaning"), Csv.Quoted(info.meaning));
    Csv.PairParses(Csv.Raw("Example"), Csv.Quoted(info.example));
  }

  /** The word is written as is, so it reads back only when it has no comma and does not start with a quote. */
  lemma WordLineParses(info: WordInfo)
    requires ',' !in info.word && (|info.word| == 0 || info.word[0] != '"')
    ensures Csv.ParseRecord(CsvLines(info, [])[0]) == Some(["Word of the Day", info.word])
  {
    LabelsArePlain();
    Csv.PairParses(Csv.Raw("Word of the Day"), Csv.Raw(info.word));
  }

  /** A row line reads back as name and sentence; the sentence may hold anything, the name no comma. */
  lemma RowLineParses(row: UsageRow)
    requires ',' !in row.name && (|row.name| == 0 || row.name[0] != '"')
    ensures Csv.ParseRecord(Csv.EncodeRecord(RowCells(row))) == Some([row.name, row.sentence])
  {
    Csv.PairParses(Csv.Raw(row.name), Csv.Quoted(row.sentence));
  }
}
