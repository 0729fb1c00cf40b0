/** The Table Topics page: a theme and a table of speakers with the topic each was given. */
module TableTopics {
  import Table

  datatype Row = Row(id: string, speaker: string, topic: string)

  datatype TableTopicsData = TableTopicsData(theme: string, rows: seq<Row>)

  /** The value the page starts from when nothing is stored. */
  const Default: TableTopicsData := TableTopicsData("", [])

  /** The editable fields of a row; the id is not one of them. */
  datatype RowField = Speaker | Topic

  function GetField(row: Row, f: RowField): string {
    match f
    case Speaker => row.speaker
    case Topic => row.topic
  }

  /** `updateTheme`: the theme changes, the rows stay. */
  function UpdateTheme(data: TableTopicsData, theme: string): (r: TableTopicsData)
    ensures r.theme == theme && r.rows == data.rows
  {
    data.(theme := theme)
  }

  /** `addRow`: one row named after its position, with an empty topic; the theme stays. */
  function AddRow(data: TableTopicsData, id: string): (r: TableTopicsData)
    ensures |r.rows| == |data.rows| + 1 && r.rows[..|data.rows|] == data.rows
    ensures r.rows[|data.rows|] == Row(id, Table.SpeakerName(|data.rows|), "")
    ensures r.theme == data.theme
  {
    data.(rows := data.rows + [Row(id, Table.SpeakerName(|data.rows|), "")])
  }

  /** `deleteRow`: the rows with the id go, the others stay in order; the theme stays. */
  function DeleteRow(data: TableTopicsData, id: string): (r: TableTopicsData)
    ensures forall i :: 0 <= i < |r.rows| ==> r.rows[i].id != id && r.rows[i] in data.rows
    ensures forall i :: 0 <= i < |data.rows| && data.rows[i].id != id ==> data.rows[i] in r.rows
    ensures r.theme == data.theme
  {
    data.(rows := Table.Keep(data.rows, (row: Row) => row.id != id))
  }

  /** `updateRow`: one field of the matching rows takes the value; ids, other fields and the theme stay. */
  function UpdateRow(data: TableTopicsData, id: string, f: RowField, v: string): (r: TableTopicsData)
    ensures |r.rows| == |data.rows| && r.theme == data.theme
    ensures forall i :: 0 <= i < |data.rows| ==> r.rows[i].id == data.rows[i].id
    ensures forall i :: 0 <= i < |data.rows| && data.rows[i].id == id ==>
      && GetField(r.rows[i], f) == v
      && (forall g :: g != f ==> GetField(r.rows[i], g) == GetField(data.rows[i], g))
    ensures forall i :: 0 <= i < |data.rows| && data.rows[i].id != id ==> r.rows[i] == data.rows[i]
  {
    var write := (row: Row) => match f case Speaker => row.(speaker := v) case Topic => row.(topic := v);
    data.(rows := Table.UpdateWhere(data.rows, (row: Row) => row.id == id, write))
  }

  /** The page creates one row when it opens on an empty table. */
  function InitIfEmpty(data: TableTopicsData, id: string): (r: TableTopicsData)
    ensures |r.rows| >= 1 && r.theme == data.theme
    ensures |data.rows| == 0 ==> r.rows == [Row(id, Table.SpeakerName(0), "")]
    ensures |data.rows| > 0 ==> r == data
  {
    if |data.rows| == 0 then AddRow(data, id) else data
  }

  /** Adding a row under a fresh id and deleting that id gives back the page as it was. */
  lemma {:induction false} AddThenDelete(data: TableTopicsData, id: string)
    requires forall i :: 0 <= i < |data.rows| ==> data.rows[i].id != id
    ensures DeleteRow(AddRow(data, id), id) == data
  {
    var p := (row: Row) => row.id != id;
    var added := Row(id, Table.SpeakerName(|data.rows|), "");
    Table.KeepAppend(data.rows, [added], p);
    assert [added][1..] == [];
    assert Table.Keep([added], p) == [];
  }
}
