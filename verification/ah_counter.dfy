/**
 * The Ah-Counter page: one row per speaker with ten filler-word counters, the
 * counter buttons, per-row totals, the cell highlighting, the summary with the
 * most common filler, and the CSV report (written without any quoting).
 */
module AhCounter {
  import opened Wrappers
  import Text
  import Table
  import Csv

  /** The counted fillers, in the order the row record declares them. */
  datatype Filler = Ah | Um | Er | Well | So | Like | But | Repeats | FalseStarts | Other {
    /** The property name, as the summary prints it. */
    function Key(): string {
      match this
      case Ah => "ah"
      case Um => "um"
      case Er => "er"
      case Well => "well"
      case So => "so"
      case Like => "like"
      case But => "but"
      case Repeats => "repeats"
      case FalseStarts => "falseStarts"
      case Other => "other"
    }

    /** The column heading in the table and the report. */
    function Label(): string {
      match this
      case Ah => "Ah"
      case Um => "Um"
      case Er => "Er"
      case Well => "Well"
      case So => "So"
      case Like => "Like"
      case But => "But"
      case Repeats => "Repeats"
      case FalseStarts => "False Starts"
      case Other => "Other"
    }
  }

  /** The fillers in declaration order; `Object.entries` of a row lists the counters in this order. */
  const Fillers: seq<Filler> := [Ah, Um, Er, Well, So, Like, But, Repeats, FalseStarts, Other]

  /** The position of a filler in `Fillers`. */
  function Index(f: Filler): (i: nat)
    ensures i < |Fillers| && Fillers[i] == f
  {
    match f
    case Ah => 0
    case Um => 1
    case Er => 2
    case Well => 3
    case So => 4
    case Like => 5
    case But => 6
    case Repeats => 7
    case FalseStarts => 8
    case Other => 9
  }

  lemma FillersListEachOnce()
    ensures |Fillers| == 10
    ensures forall i, j :: 0 <= i < j < |Fillers| ==> Fillers[i] != Fillers[j]
    ensures forall f: Filler :: f in Fillers
  {
    forall f: Filler ensures f in Fillers {
      assert Fillers[Index(f)] == f;
    }
  }

  datatype Row = Row(
    id: string,
    name: string,
    ah: int, um: int, er: int, well: int, so: int,
    like: int, but: int, repeats: int, falseStarts: int, other: int)

  function Get(row: Row, f: Filler): int {
    match f
    case Ah => row.ah
    case Um => row.um
    case Er => row.er
    case Well => row.well
    case So => row.so
    case Like => row.like
    case But => row.but
    case Repeats => row.repeats
    case FalseStarts => row.falseStarts
    case Other => row.other
  }

  /** `{ ...row, [field]: v }` for a counter field. */
  function Set(row: Row, f: Filler, v: int): (r: Row)
    ensures Get(r, f) == v
    ensures forall g :: g != f ==> Get(r, g) == Get(row, g)
    ensures r.id == row.id && r.name == row.name
  {
    match f
    case Ah => row.(ah := v)
    case Um => row.(um := v)
    case Er => row.(er := v)
    case Well => row.(well := v)
    case So => row.(so := v)
    case Like => row.(like := v)
    case But => row.(but := v)
    case Repeats => row.(repeats := v)
    case FalseStarts => row.(falseStarts := v)
    case Other => row.(other := v)
  }

  lemma SetSame(row: Row, f: Filler)
    ensures Set(row, f, Get(row, f)) == row
  {
  }

  /** Every counter of the row is zero or more, as the buttons keep it. */
  predicate NonNegative(row: Row) {
    && row.ah >= 0 && row.um >= 0 && row.er >= 0 && row.well >= 0 && row.so >= 0
    && row.like >= 0 && row.but >= 0 && row.repeats >= 0 && row.falseStarts >= 0 && row.other >= 0
  }

  lemma NonNegativeByFiller(row: Row)
    ensures NonNegative(row) <==> forall f :: Get(row, f) >= 0
  {
    if forall f :: Get(row, f) >= 0 {
      assert Get(row, Ah) >= 0 && Get(row, Um) >= 0 && Get(row, Er) >= 0 && Get(row, Well) >= 0;
      assert Get(row, So) >= 0 && Get(row, Like) >= 0 && Get(row, But) >= 0;
      assert Get(row, Repeats) >= 0 && Get(row, FalseStarts) >= 0 && Get(row, Other) >= 0;
    }
  }

  /** The sum of the counters of `fs`, the reference the total is checked against. */
  function SumOf(row: Row, fs: seq<Filler>): int
    decreases |fs|
  {
    if |fs| == 0 then 0 else Get(row, fs[0]) + SumOf(row, fs[1..])
  }

  /** `getTotal`: the ten counters added up. */
  function GetTotal(row: Row): (t: int)
    ensures NonNegative(row) ==> t >= 0
  {
    row.ah + row.um + row.er + row.well + row.so + row.like + row.but + row.repeats + row.falseStarts + row.other
  }

  /** The total is the sum of the counters taken in field order. */
  lemma TotalIsSum(row: Row)
    ensures GetTotal(row) == SumOf(row, Fillers)
  {
    var fs := Fillers;
    assert fs[1..] == [Um, Er, Well, So, Like, But, Repeats, FalseStarts, Other];
    assert fs[2..] == [Er, Well, So, Like, But, Repeats, FalseStarts, Other];
    assert fs[3..] == [Well, So, Like, But, Repeats, FalseStarts, Other];
    assert fs[4..] == [So, Like, But, Repeats, FalseStarts, Other];
    assert fs[5..] == [Like, But, Repeats, FalseStarts, Other];
    assert fs[6..] == [But, Repeats, FalseStarts, Other];
    assert fs[7..] == [Repeats, FalseStarts, Other];
    assert fs[8..] == [FalseStarts, Other];
    assert fs[9..] == [Other];
    assert fs[10..] == [];
  }

  /** Changing one counter changes the total by the same amount. */
  lemma TotalAfterSet(row: Row, f: Filler, v: int)
    ensures GetTotal(Set(row, f, v)) == GetTotal(row) - Get(row, f) + v
  {
  }

  /** The row `addRow` appends to a table of `count` rows. */
  function NewRow(id: string, count: nat): (r: Row)
    ensures r.id == id && r.name == Table.SpeakerName(count)
    ensures forall f :: Get(r, f) == 0
    ensures GetTotal(r) == 0
  {
    Row(id, Table.SpeakerName(count), 0, 0, 0, 0, 0, 0, 0, 0, 0, 0)
  }

  /** `addRow`: one fresh row after the existing ones. */
  function AddRow(rows: seq<Row>, id: string): (r: seq<Row>)
    ensures |r| == |rows| + 1 && r[..|rows|] == rows
    ensures r[|rows|].id == id && r[|rows|].name == Table.SpeakerName(|rows|)
    ensures forall f :: Get(r[|rows|], f) == 0
  {
    rows + [NewRow(id, |rows|)]
  }

  /** `deleteRow`: every row with the id goes, the others stay in order. */
  function DeleteRow(rows: seq<Row>, id: string): (r: seq<Row>)
    ensures forall i :: 0 <= i < |r| ==> r[i].id != id && r[i] in rows
    ensures forall i :: 0 <= i < |rows| && rows[i].id != id ==> rows[i] in r
    ensures |r| == |rows| <==> forall i :: 0 <= i < |rows| ==> rows[i].id != id
  {
    Table.Keep(rows, (row: Row) => row.id != id)
  }

  /** `updateName`: the matching rows take the new name; nothing else changes. */
  function UpdateName(rows: seq<Row>, id: string, name: string): (r: seq<Row>)
    ensures |r| == |rows|
    ensures forall i :: 0 <= i < |rows| ==> r[i].id == rows[i].id
    ensures forall i :: 0 <= i < |rows| && rows[i].id == id ==> r[i] == rows[i].(name := name)
    ensures forall i :: 0 <= i < |rows| && rows[i].id != id ==> r[i] == rows[i]
  {
    Table.UpdateWhere(rows, (row: Row) => row.id == id, (row: Row) => row.(name := name))
  }

  /** `incrementCell`: one counter of the matching rows goes up by one. */
  function IncrementCell(rows: seq<Row>, id: string, f: Filler): (r: seq<Row>)
    ensures |r| == |rows|
    ensures forall i :: 0 <= i < |rows| ==> r[i].id == rows[i].id && r[i].name == rows[i].name
    ensures forall i :: 0 <= i < |rows| && rows[i].id == id ==>
      && Get(r[i], f) == Get(rows[i], f) + 1
      && (forall g :: g != f ==> Get(r[i], g) == Get(rows[i], g))
      && GetTotal(r[i]) == GetTotal(rows[i]) + 1
    ensures forall i :: 0 <= i < |rows| && rows[i].id != id ==> r[i] == rows[i]
  {
    var r := Table.UpdateWhere(rows, (row: Row) => row.id == id, (row: Row) => Set(row, f, Get(row, f) + 1));
    assert forall i :: 0 <= i < |rows| && rows[i].id == id ==> GetTotal(r[i]) == GetTotal(rows[i]) + 1 by {
      forall i | 0 <= i < |rows| && rows[i].id == id {
        TotalAfterSet(rows[i], f, Get(rows[i], f) + 1);
      }
    }
    r
  }

  /** `decrementCell`: one counter of the matching rows goes down by one, but not below zero. */
  function DecrementCell(rows: seq<Row>, id: string, f: Filler): (r: seq<Row>)
    ensures |r| == |rows|
    ensures forall i :: 0 <= i < |rows| ==> r[i].id == rows[i].id && r[i].name == rows[i].name
    ensures forall i :: 0 <= i < |rows| && rows[i].id == id ==>
      && Get(r[i], f) >= 0
      && (Get(rows[i], f) >= 1 ==> Get(r[i], f) == Get(rows[i], f) - 1)
      && (Get(rows[i], f) <= 0 ==> Get(r[i], f) == 0)
      && (forall g :: g != f ==> Get(r[i], g) == Get(rows[i], g))
    ensures forall i :: 0 <= i < |rows| && rows[i].id == id && Get(rows[i], f) == 0 ==> r[i] == rows[i]
    ensures forall i :: 0 <= i < |rows| && rows[i].id != id ==> r[i] == rows[i]
  {
    var r := Table.UpdateWhere(rows, (row: Row) => row.id == id, (row: Row) => Set(row, f, Max(0, Get(row, f) - 1)));
    assert forall i :: 0 <= i < |rows| && rows[i].id == id && Get(rows[i], f) == 0 ==> r[i] == rows[i] by {
      forall i | 0 <= i < |rows| && rows[i].id == id && Get(rows[i], f) == 0 {
        SetSame(rows[i], f);
      }
    }
    r
  }

  function Max(a: int, b: int): int {
    if a >= b then a else b
  }

  /** The counter buttons never make a counter of a non-negative table negative. */
  lemma ButtonsKeepNonNegative(rows: seq<Row>, id: string, f: Filler)
    requires forall i :: 0 <= i < |rows| ==> NonNegative(rows[i])
    ensures forall i :: 0 <= i < |rows| ==> NonNegative(IncrementCell(rows, id, f)[i])
    ensures forall i :: 0 <= i < |rows| ==> NonNegative(DecrementCell(rows, id, f)[i])
  {
    var inc := IncrementCell(rows, id, f);
    var dec := DecrementCell(rows, id, f);
    forall i | 0 <= i < |rows| ensures NonNegative(inc[i]) && NonNegative(dec[i]) {
      NonNegativeByFiller(rows[i]);
      SteppedRowNonNegative(rows[i], inc[i], f);
      SteppedRowNonNegative(rows[i], dec[i], f);
    }
  }

  /** A row that differs from a non-negative row only in a non-negative counter `f` is non-negative. */
  lemma SteppedRowNonNegative(row: Row, next: Row, f: Filler)
    requires forall g :: Get(row, g) >= 0
    requires Get(next, f) >= 0
    requires forall g :: g != f ==> Get(next, g) == Get(row, g)
    ensures NonNegative(next)
  {
    NonNegativeByFiller(next);
  }

  /** The highlight of a counter cell. */
  datatype CellColor = NoHighlight | YellowHighlight | OrangeHighlight {
    /** The Tailwind classes of a counter cell; the empty class leaves the cell plain. */
    function ClassName(): (r: string)
      ensures r == "" <==> this == NoHighlight
    {
      match this
      case NoHighlight => ""
      case YellowHighlight => "bg-yellow-200 dark:bg-yellow-900/40"
      case OrangeHighlight => "bg-orange-200 dark:bg-orange-900/40"
    }
  }

  /** The three highlights have different classes, so the cell's class tells the highlight. */
  lemma ClassNamesDistinct(a: CellColor, b: CellColor)
    ensures a.ClassName() == b.ClassName() <==> a == b
  {
  }

  /** `getCellBackgroundColor`: orange above ten, yellow from six to ten, nothing up to five. */
  function GetCellBackgroundColor(count: int): (c: CellColor)
    ensures c == OrangeHighlight <==> count > 10
    ensures c == YellowHighlight <==> 6 <= count <= 10
    ensures c == NoHighlight <==> count <= 5
  {
    if count > 10 then OrangeHighlight
    else if count > 5 then YellowHighlight
    else NoHighlight
  }

  /**
   * The position `reduce((a, b) => a[1] > b[1] ? a : b)` ends on over the counters
   * of `fs`: an earlier entry survives only while strictly larger, so the last of the
   * largest counters wins.
   */
  function LastMaxIndex(row: Row, fs: seq<Filler>): (k: nat)
    requires |fs| > 0
    ensures k < |fs|
    ensures forall j :: 0 <= j < |fs| ==> Get(row, fs[j]) <= Get(row, fs[k])
    ensures forall j :: k < j < |fs| ==> Get(row, fs[j]) < Get(row, fs[k])
    decreases |fs|
  {
    if |fs| == 1 then 0
    else
      var a := LastMaxIndex(row, fs[..|fs| - 1]);
      var b := |fs| - 1;
      if Get(row, fs[a]) > Get(row, fs[b]) then a else b
  }

  /** The `mostCommon` entry of the summary: a largest counter, the last one in field order on a tie. */
  function MostCommon(row: Row): (f: Filler)
    ensures forall g :: Get(row, g) <= Get(row, f)
    ensures forall g :: Index(g) > Index(f) ==> Get(row, g) < Get(row, f)
  {
    var k := LastMaxIndex(row, Fillers);
    assert Index(Fillers[k]) == k;
    assert forall g :: Get(row, g) <= Get(row, Fillers[k]) by {
      forall g ensures Get(row, g) <= Get(row, Fillers[k]) {
        assert Fillers[Index(g)] == g;
      }
    }
    assert forall g :: Index(g) > k ==> Get(row, g) < Get(row, Fillers[k]) by {
      forall g | Index(g) > k ensures Get(row, g) < Get(row, Fillers[k]) {
        assert Fillers[Index(g)] == g;
      }
    }
    Fillers[k]
  }

  /** A row with no fillers counted names "other" as most common. */
  lemma AllZeroMostCommonIsOther(row: Row)
    requires forall f :: Get(row, f) == 0
    ensures MostCommon(row) == Other
    ensures MostCommon(row).Key() == "other"
  {
  }

  datatype SummaryEntry = SummaryEntry(name: string, total: int, mostCommon: string)

  /** `generateSummary`: one entry per row, in table order. */
  function GenerateSummary(rows: seq<Row>): (s: seq<SummaryEntry>)
    ensures |s| == |rows|
    ensures forall i :: 0 <= i < |rows| ==>
      && s[i].name == rows[i].name
      && s[i].total == GetTotal(rows[i])
      && (forall g :: Get(rows[i], g) <= Get(rows[i], MostCommon(rows[i])))
      && s[i].mostCommon == MostCommon(rows[i]).Key()
  {
    if |rows| == 0 then []
    else seq(|rows|, i requires 0 <= i < |rows| => SummaryEntry(rows[i].name, GetTotal(rows[i]), MostCommon(rows[i]).Key()))
  }

  /** The report's column headings. */
  const Headers: seq<string> := ["Name", "Ah", "Um", "Er", "Well", "So", "Like", "But", "Repeats", "False Starts", "Other", "Total"]

  lemma HeadersMatchColumns()
    ensures |Headers| == 12 && Headers[0] == "Name" && Headers[11] == "Total"
    ensures forall i :: 0 <= i < |Fillers| ==> Headers[i + 1] == Fillers[i].Label()
  {
  }

  /** A number written in decimal, unquoted. */
  function Number(i: int): Csv.Cell {
    Csv.Raw(Text.IntToString(i))
  }

  /** The fields of a report line: the name, the ten counters and the total, all written as is. */
  function CsvCells(row: Row): (cells: seq<Csv.Cell>)
    ensures |cells| == 12
    ensures cells[0] == Csv.Raw(row.name)
    ensures cells[11] == Number(GetTotal(row))
  {
    seq(12, i requires 0 <= i < 12 => Column(row, i))
  }

  /** Between the name and the total, a report line holds the counters in field order. */
  lemma CsvCellsCounters(row: Row)
    ensures forall i :: 0 <= i < |Fillers| ==> CsvCells(row)[i + 1] == Number(Get(row, Fillers[i]))
  {
    var cells := CsvCells(row);
    forall i | 0 <= i < |Fillers| ensures cells[i + 1] == Number(Get(row, Fillers[i])) {
      assert cells[i + 1] == Column(row, i + 1);
    }
  }

  /** Every field of a report line after the name is a number: recoverable, with no line break. */
  lemma CsvCellsPlain(row: Row)
    ensures forall i :: 0 < i < 12 ==> Csv.Recoverable(CsvCells(row)[i]) && '\n' !in CsvCells(row)[i].text
  {
    var cells := CsvCells(row);
    forall i | 0 < i < 12 ensures Csv.Recoverable(cells[i]) && '\n' !in cells[i].text {
      assert cells[i] == Column(row, i);
      if i <= |Fillers| {
        NumberIsPlain(Get(row, Fillers[i - 1]));
      } else {
        NumberIsPlain(GetTotal(row));
      }
    }
  }

  /** Field `i` of a report line: the name first, the counters in field order, the total last. */
  function Column(row: Row, i: nat): Csv.Cell
    requires i < 12
  {
    if i == 0 then Csv.Raw(row.name)
    else if i <= |Fillers| then Number(Get(row, Fillers[i - 1]))
    else Number(GetTotal(row))
  }

  /** The heading line's fields: the headings, written as is. */
  function HeaderCells(): seq<Csv.Cell> {
    Csv.RawCells(Headers)
  }

  /** One record per row, in table order. */
  function RowRecords(rows: seq<Row>): (recs: seq<seq<Csv.Cell>>)
    ensures |recs| == |rows|
    ensures forall i :: 0 <= i < |rows| ==> recs[i] == CsvCells(rows[i])
    decreases |rows|
  {
    if |rows| == 0 then [] else [CsvCells(rows[0])] + RowRecords(rows[1..])
  }

  /** The records of the report: the heading record, then one record per row in table order. */
  function Records(rows: seq<Row>): (recs: seq<seq<Csv.Cell>>)
    ensures |recs| == 1 + |rows|
    ensures recs[0] == HeaderCells()
    ensures forall i :: 0 <= i < |rows| ==> recs[i + 1] == CsvCells(rows[i])
  {
    var tail := RowRecords(rows);
    var recs := [HeaderCells()] + tail;
    assert forall i :: 0 <= i < |rows| ==> recs[i + 1] == tail[i];
    recs
  }

  /** The lines of the report: each record with its fields joined by commas. */
  function CsvLines(rows: seq<Row>): (lines: seq<string>)
    ensures |lines| == 1 + |rows|
    ensures forall i :: 0 <= i < |lines| ==> lines[i] == Csv.EncodeRecord(Records(rows)[i])
  {
    var recs := Records(rows);
    seq(|recs|, i requires 0 <= i < |recs| => Csv.EncodeRecord(recs[i]))
  }

  /** The report text: the lines joined with newlines. */
  function CsvText(rows: seq<Row>): (r: string)
    ensures var heading := Csv.EncodeRecord(HeaderCells());
      |heading| <= |r| && r[..|heading|] == heading
  {
    Text.JoinEnds(CsvLines(rows), "\n");
    Text.Join(CsvLines(rows), "\n")
  }

  lemma NumberIsPlain(i: int)
    ensures Csv.Recoverable(Number(i)) && '\n' !in Number(i).text
  {
    var s := Text.IntToString(i);
    assert s[0] == '-' || Text.IsDigit(s[0]);
  }

  /** The heading line reads back as the twelve headings. */
  lemma HeaderLineParses()
    ensures Csv.ParseRecord(CsvLines([])[0]) == Some(Headers)
  {
    Csv.RawRecordParses(Headers);
  }

  /**
   * A row line reads back as twelve fields (name, ten counters, total) when the name
   * has no comma and does not start with a quote; the name is not quoted.
   */
  lemma {:induction false} RowLineParses(row: Row)
    requires ',' !in row.name && (|row.name| == 0 || row.name[0] != '"')
    ensures var fields := Csv.ParseRecord(Csv.EncodeRecord(CsvCells(row)));
      && fields.Some? && |fields.value| == 12
      && fields.value[0] == row.name
      && (forall i :: 0 <= i < |Fillers| ==> fields.value[i + 1] == Text.IntToString(Get(row, Fillers[i])))
      && fields.value[11] == Text.IntToString(GetTotal(row))
  {
    var cells := CsvCells(row);
    CsvCellsPlain(row);
    CsvCellsCounters(row);
    Csv.ParseEncodeRecord(cells);
  }

  /** Because names are written unquoted, a comma in a name splits it into two report columns. */
  lemma {:induction false} CommaInNameShiftsColumns(row: Row, first: string, second: string)
    requires row.name == first + "," + second
    requires ',' !in first && ',' !in second
    requires (|first| == 0 || first[0] != '"') && (|second| == 0 || second[0] != '"')
    ensures var fields := Csv.ParseRecord(Csv.EncodeRecord(CsvCells(row)));
      && fields.Some? && |fields.value| == 13
      && fields.value[0] == first && fields.value[1] == second
  {
    var cells := CsvCells(row);
    var more := cells[1..];
    assert cells == [Csv.Raw(row.name)] + more;
    CsvCellsPlain(row);
    assert forall i :: 0 <= i < |more| ==> more[i] == cells[i + 1];
    Csv.SplitRawFieldParses(first, second, more);
  }

  lemma HeaderLineHasNoBreak()
    ensures '\n' !in Csv.EncodeRecord(HeaderCells())
  {
    Csv.RawRecordAvoids(Headers, '\n');
  }

  lemma RowLineHasNoBreak(row: Row)
    requires '\n' !in row.name
    ensures '\n' !in Csv.EncodeRecord(CsvCells(row))
  {
    var cells := CsvCells(row);
    CsvCellsPlain(row);
    Csv.EncodeRecordAvoids(cells, '\n');
  }

  /** With no line break in any name, splitting the report text at line breaks gives its lines back. */
  lemma CsvTextSplitsIntoLines(rows: seq<Row>)
    requires forall i :: 0 <= i < |rows| ==> '\n' !in rows[i].name
    ensures Text.Split(CsvText(rows), '\n') == CsvLines(rows)
  {
    var lines := CsvLines(rows);
    forall i | 0 <= i < |lines| ensures '\n' !in lines[i] {
      if i == 0 {
        HeaderLineHasNoBreak();
      } else {
        RowLineHasNoBreak(rows[i - 1]);
      }
    }
    Text.SplitJoin(lines, '\n');
  }

  /** The page creates one row when it opens on an empty table. */
  function InitIfEmpty(rows: seq<Row>, id: string): (r: seq<Row>)
    ensures |r| >= 1
    ensures |rows| > 0 ==> r == rows
    ensures |rows| == 0 ==> r == [NewRow(id, 0)]
  {
    if |rows| == 0 then AddRow(rows, id) else rows
  }
}
