/**
 * The General Evaluator page: a checklist of six meeting elements and four
 * free-text notes, held in two nested records and edited one entry at a time.
 */
module GeneralEvaluator {

  /** The checklist entries, in the order of the data record. */
  datatype CheckKey = StartTime | Greeting | Preparation | Timing | Flow | Energy

  /** The free-text notes, in the order of the data record. */
  datatype NoteKey = Toastmaster | Speeches | TableTopics | General

  datatype Checkboxes = Checkboxes(
    startTime: bool, greeting: bool, preparation: bool, timing: bool, flow: bool, energy: bool)

  datatype Textareas = Textareas(toastmaster: string, speeches: string, tableTopics: string, general: string)

  datatype GeneralEvaluatorData = GeneralEvaluatorData(checkboxes: Checkboxes, textareas: Textareas)

  function GetCheck(c: Checkboxes, k: CheckKey): bool {
    match k
    case StartTime => c.startTime
    case Greeting => c.greeting
    case Preparation => c.preparation
    case Timing => c.timing
    case Flow => c.flow
    case Energy => c.energy
  }

  function GetNote(t: Textareas, k: NoteKey): string {
    match k
    case Toastmaster => t.toastmaster
    case Speeches => t.speeches
    case TableTopics => t.tableTopics
    case General => t.general
  }

  /** The value the page starts from when nothing is stored: nothing ticked, every note empty. */
  function Default(): (d: GeneralEvaluatorData)
    ensures forall k :: !GetCheck(d.checkboxes, k)
    ensures forall k :: GetNote(d.textareas, k) == ""
  {
    GeneralEvaluatorData(Checkboxes(false, false, false, false, false, false), Textareas("", "", "", ""))
  }

  /** `updateCheckbox`: one checklist entry takes the value; the other entries and the notes stay. */
  function UpdateCheckbox(d: GeneralEvaluatorData, k: CheckKey, b: bool): (r: GeneralEvaluatorData)
    ensures GetCheck(r.checkboxes, k) == b
    ensures forall j :: j != k ==> GetCheck(r.checkboxes, j) == GetCheck(d.checkboxes, j)
    ensures r.textareas == d.textareas
  {
    var c := d.checkboxes;
    var c' := match k
      case StartTime => c.(startTime := b)
      case Greeting => c.(greeting := b)
      case Preparation => c.(preparation := b)
      case Timing => c.(timing := b)
      case Flow => c.(flow := b)
      case Energy => c.(energy := b);
    d.(checkboxes := c')
  }

  /** `updateTextarea`: one note takes the value; the other notes and the checklist stay. */
  function UpdateTextarea(d: GeneralEvaluatorData, k: NoteKey, v: string): (r: GeneralEvaluatorData)
    ensures GetNote(r.textareas, k) == v
    ensures forall j :: j != k ==> GetNote(r.textareas, j) == GetNote(d.textareas, j)
    ensures r.checkboxes == d.checkboxes
  {
    var t := d.textareas;
    var t' := match k
      case Toastmaster => t.(toastmaster := v)
      case Speeches => t.(speeches := v)
      case TableTopics => t.(tableTopics := v)
      case General => t.(general := v);
    d.(textareas := t')
  }

  /** Two records that agree on every entry and every note are the same record. */
  lemma Extensionality(a: GeneralEvaluatorData, b: GeneralEvaluatorData)
    requires forall k :: GetCheck(a.checkboxes, k) == GetCheck(b.checkboxes, k)
    requires forall k :: GetNote(a.textareas, k) == GetNote(b.textareas, k)
    ensures a == b
  {
    assert GetCheck(a.checkboxes, StartTime) == GetCheck(b.checkboxes, StartTime);
    assert GetCheck(a.checkboxes, Greeting) == GetCheck(b.checkboxes, Greeting);
    assert GetCheck(a.checkboxes, Preparation) == GetCheck(b.checkboxes, Preparation);
    assert GetCheck(a.checkboxes, Timing) == GetCheck(b.checkboxes, Timing);
    assert GetCheck(a.checkboxes, Flow) == GetCheck(b.checkboxes, Flow);
    assert GetCheck(a.checkboxes, Energy) == GetCheck(b.checkboxes, Energy);
    assert GetNote(a.textareas, Toastmaster) == GetNote(b.textareas, Toastmaster);
    assert GetNote(a.textareas, Speeches) == GetNote(b.textareas, Speeches);
    assert GetNote(a.textareas, TableTopics) == GetNote(b.textareas, TableTopics);
    assert GetNote(a.textareas, General) == GetNote(b.textareas, General);
  }

  /** Ticking the same entry twice is ticking it once. */
  lemma UpdateCheckboxIdempotent(d: GeneralEvaluatorData, k: CheckKey, b: bool)
    ensures UpdateCheckbox(UpdateCheckbox(d, k, b), k, b) == UpdateCheckbox(d, k, b)
  {
    Extensionality(UpdateCheckbox(UpdateCheckbox(d, k, b), k, b), UpdateCheckbox(d, k, b));
  }

  /** Typing the same note twice is typing it once. */
  lemma UpdateTextareaIdempotent(d: GeneralEvaluatorData, k: NoteKey, v: string)
    ensures UpdateTextarea(UpdateTextarea(d, k, v), k, v) == UpdateTextarea(d, k, v)
  {
    Extensionality(UpdateTextarea(UpdateTextarea(d, k, v), k, v), UpdateTextarea(d, k, v));
  }

  /** Ticking two different entries gives the same record in either order. */
  lemma CheckboxUpdatesCommute(d: GeneralEvaluatorData, k1: CheckKey, b1: bool, k2: CheckKey, b2: bool)
    requires k1 != k2
    ensures UpdateCheckbox(UpdateCheckbox(d, k1, b1), k2, b2) == UpdateCheckbox(UpdateCheckbox(d, k2, b2), k1, b1)
  {
    Extensionality(UpdateCheckbox(UpdateCheckbox(d, k1, b1), k2, b2), UpdateCheckbox(UpdateCheckbox(d, k2, b2), k1, b1));
  }

  /** Editing two different notes gives the same record in either order. */
  lemma TextareaUpdatesCommute(d: GeneralEvaluatorData, k1: NoteKey, v1: string, k2: NoteKey, v2: string)
    requires k1 != k2
    ensures UpdateTextarea(UpdateTextarea(d, k1, v1), k2, v2) == UpdateTextarea(UpdateTextarea(d, k2, v2), k1, v1)
  {
    Extensionality(UpdateTextarea(UpdateTextarea(d, k1, v1), k2, v2), UpdateTextarea(UpdateTextarea(d, k2, v2), k1, v1));
  }

  /** A tick and a note touch different records, so their order does not matter. */
  lemma CheckboxAndTextareaCommute(d: GeneralEvaluatorData, k: CheckKey, b: bool, n: NoteKey, v: string)
    ensures UpdateTextarea(UpdateCheckbox(d, k, b), n, v) == UpdateCheckbox(UpdateTextarea(d, n, v), k, b)
  {
    Extensionality(UpdateTextarea(UpdateCheckbox(d, k, b), n, v), UpdateCheckbox(UpdateTextarea(d, n, v), k, b));
  }

  datatype CheckboxItem = CheckboxItem(key: CheckKey, caption: string)

  /** The `checkboxItems` list the checklist is drawn from. */
  const CheckboxItems: seq<CheckboxItem> := [
    CheckboxItem(StartTime, "Meeting started on time"),
    CheckboxItem(Greeting, "Guests greeted properly"),
    CheckboxItem(Preparation, "Meeting well-prepared"),
    CheckboxItem(Timing, "Good time management"),
    CheckboxItem(Flow, "Smooth meeting flow"),
    CheckboxItem(Energy, "High energy level")
  ]

  /** Where a key sits in the checklist. */
  function ItemIndex(k: CheckKey): (i: nat)
    ensures i < |CheckboxItems| && CheckboxItems[i].key == k
  {
    match k
    case StartTime => 0
    case Greeting => 1
    case Preparation => 2
    case Timing => 3
    case Flow => 4
    case Energy => 5
  }

  /**
   * The checklist shows every entry of the record exactly once: `ItemIndex` undoes the
   * list, so each key sits at `ItemIndex(k)` and at no other position.
   */
  lemma CheckboxItemsEachOnce()
    ensures |CheckboxItems| == 6
    ensures forall i :: 0 <= i < |CheckboxItems| ==> ItemIndex(CheckboxItems[i].key) == i
    ensures forall i, j :: 0 <= i < j < |CheckboxItems| ==> CheckboxItems[i].key != CheckboxItems[j].key
  {
  }
}
