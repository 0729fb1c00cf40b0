/**
 * The Speech Evaluator page: six text fields about the speech and a checklist
 * of ten speaking techniques, each edited one field at a time.
 */
module SpeechEvaluator {

  /** The text fields of the form, in the order of the data record. */
  datatype TextField = SpeakerName | SpeechTitle | PathwayProject | WentWell | CouldBeBetter | BestThing

  /** The checklist entries, in the order of the data record. */
  datatype CheckKey =
    | VocalVariety | BodyLanguage | Pauses | AudienceAwareness | CallToAction
    | RuleOfThree | ExamplesAnalogies | ContentStructure | Dialog | FirstLineLastLine

  datatype Checkboxes = Checkboxes(
    vocalVariety: bool, bodyLanguage: bool, pauses: bool, audienceAwareness: bool, callToAction: bool,
    ruleOfThree: bool, examplesAnalogies: bool, contentStructure: bool, dialog: bool, firstLineLastLine: bool)

  datatype SpeechEvaluatorData = SpeechEvaluatorData(
    speakerName: string, speechTitle: string, pathwayProject: string,
    wentWell: string, couldBeBetter: string, bestThing: string,
    checkboxes: Checkboxes)

  function GetText(d: SpeechEvaluatorData, f: TextField): string {
    match f
    case SpeakerName => d.speakerName
    case SpeechTitle => d.speechTitle
    case PathwayProject => d.pathwayProject
    case WentWell => d.wentWell
    case CouldBeBetter => d.couldBeBetter
    case BestThing => d.bestThing
  }

  function GetCheck(c: Checkboxes, k: CheckKey): bool {
    match k
    case VocalVariety => c.vocalVariety
    case BodyLanguage => c.bodyLanguage
    case Pauses => c.pauses
    case AudienceAwareness => c.audienceAwareness
    case CallToAction => c.callToAction
    case RuleOfThree => c.ruleOfThree
    case ExamplesAnalogies => c.examplesAnalogies
    case ContentStructure => c.contentStructure
    case Dialog => c.dialog
    case FirstLineLastLine => c.firstLineLastLine
  }

  /** The value the page starts from when nothing is stored: every text empty, nothing ticked. */
  function Default(): (d: SpeechEvaluatorData)
    ensures forall f :: GetText(d, f) == ""
    ensures forall k :: !GetCheck(d.checkboxes, k)
  {
    SpeechEvaluatorData("", "", "", "", "", "",
      Checkboxes(false, false, false, false, false, false, false, false, false, false))
  }

  /** `updateField`: one text field takes the value; the other texts and the checklist stay. */
  function UpdateField(d: SpeechEvaluatorData, f: TextField, v: string): (r: SpeechEvaluatorData)
    ensures GetText(r, f) == v
    ensures forall g :: g != f ==> GetText(r, g) == GetText(d, g)
    ensures r.checkboxes == d.checkboxes
  {
    match f
    case SpeakerName => d.(speakerName := v)
    case SpeechTitle => d.(speechTitle := v)
    case PathwayProject => d.(pathwayProject := v)
    case WentWell => d.(wentWell := v)
    case CouldBeBetter => d.(couldBeBetter := v)
    case BestThing => d.(bestThing := v)
  }

  /** One entry of the checklist record takes the value. */
  function SetCheck(c: Checkboxes, k: CheckKey, b: bool): (r: Checkboxes)
    ensures GetCheck(r, k) == b
  {
    match k
    case VocalVariety => c.(vocalVariety := b)
    case BodyLanguage => c.(bodyLanguage := b)
    case Pauses => c.(pauses := b)
    case AudienceAwareness => c.(audienceAwareness := b)
    case CallToAction => c.(callToAction := b)
    case RuleOfThree => c.(ruleOfThree := b)
    case ExamplesAnalogies => c.(examplesAnalogies := b)
    case ContentStructure => c.(contentStructure := b)
    case Dialog => c.(dialog := b)
    case FirstLineLastLine => c.(firstLineLastLine := b)
  }

  /** `SetCheck` leaves every other entry as it was. */
  lemma SetCheckKeepsOthers(c: Checkboxes, k: CheckKey, b: bool, j: CheckKey)
    requires j != k
    ensures GetCheck(SetCheck(c, k, b), j) == GetCheck(c, j)
  {
    match k
    case VocalVariety =>
    case BodyLanguage =>
    case Pauses =>
    case AudienceAwareness =>
    case CallToAction =>
    case RuleOfThree =>
    case ExamplesAnalogies =>
    case ContentStructure =>
    case Dialog =>
    case FirstLineLastLine =>
  }

  /** `updateCheckbox`: one checklist entry takes the value; the other entries and all texts stay. */
  function UpdateCheckbox(d: SpeechEvaluatorData, k: CheckKey, b: bool): (r: SpeechEvaluatorData)
    ensures GetCheck(r.checkboxes, k) == b
    ensures forall j :: j != k ==> GetCheck(r.checkboxes, j) == GetCheck(d.checkboxes, j)
    ensures forall f :: GetText(r, f) == GetText(d, f)
  {
    assert forall j :: j != k ==> GetCheck(SetCheck(d.checkboxes, k, b), j) == GetCheck(d.checkboxes, j) by {
      forall j | j != k ensures GetCheck(SetCheck(d.checkboxes, k, b), j) == GetCheck(d.checkboxes, j) {
        SetCheckKeepsOthers(d.checkboxes, k, b, j);
      }
    }
    d.(checkboxes := SetCheck(d.checkboxes, k, b))
  }

  /** Two records that agree on every text and every entry are the same record. */
  lemma Extensionality(a: SpeechEvaluatorData, b: SpeechEvaluatorData)
    requires forall f :: GetText(a, f) == GetText(b, f)
    requires forall k :: GetCheck(a.checkboxes, k) == GetCheck(b.checkboxes, k)
    ensures a == b
  {
    assert GetText(a, SpeakerName) == GetText(b, SpeakerName);
    assert GetText(a, SpeechTitle) == GetText(b, SpeechTitle);
    assert GetText(a, PathwayProject) == GetText(b, PathwayProject);
    assert GetText(a, WentWell) == GetText(b, WentWell);
    assert GetText(a, CouldBeBetter) == GetText(b, CouldBeBetter);
    assert GetText(a, BestThing) == GetText(b, BestThing);
    assert GetCheck(a.checkboxes, VocalVariety) == GetCheck(b.checkboxes, VocalVariety);
    assert GetCheck(a.checkboxes, BodyLanguage) == GetCheck(b.checkboxes, BodyLanguage);
    assert GetCheck(a.checkboxes, Pauses) == GetCheck(b.checkboxes, Pauses);
    assert GetCheck(a.checkboxes, AudienceAwareness) == GetCheck(b.checkboxes, AudienceAwareness);
    assert GetCheck(a.checkboxes, CallToAction) == GetCheck(b.checkboxes, CallToAction);
    assert GetCheck(a.checkboxes, RuleOfThree) == GetCheck(b.checkboxes, RuleOfThree);
    assert GetCheck(a.checkboxes, ExamplesAnalogies) == GetCheck(b.checkboxes, ExamplesAnalogies);
    assert GetCheck(a.checkboxes, ContentStructure) == GetCheck(b.checkboxes, ContentStructure);
    assert GetCheck(a.checkboxes, Dialog) == GetCheck(b.checkboxes, Dialog);
    assert GetCheck(a.checkboxes, FirstLineLastLine) == GetCheck(b.checkboxes, FirstLineLastLine);
  }

  /** Typing the same text twice is typing it once. */
  lemma UpdateFieldIdempotent(d: SpeechEvaluatorData, f: TextField, v: string)
    ensures UpdateField(UpdateField(d, f, v), f, v) == UpdateField(d, f, v)
  {
    Extensionality(UpdateField(UpdateField(d, f, v), f, v), UpdateField(d, f, v));
  }

  /** Setting the same entry twice is setting it once. */
  lemma UpdateCheckboxIdempotent(d: SpeechEvaluatorData, k: CheckKey, b: bool)
    ensures UpdateCheckbox(UpdateCheckbox(d, k, b), k, b) == UpdateCheckbox(d, k, b)
  {
    Extensionality(UpdateCheckbox(UpdateCheckbox(d, k, b), k, b), UpdateCheckbox(d, k, b));
  }

  /** Editing a text and ticking an entry give the same record in either order. */
  lemma TextAndCheckboxCommute(d: SpeechEvaluatorData, f: TextField, v: string, k: CheckKey, b: bool)
    ensures UpdateCheckbox(UpdateField(d, f, v), k, b) == UpdateField(UpdateCheckbox(d, k, b), f, v)
  {
    Extensionality(UpdateCheckbox(UpdateField(d, f, v), k, b), UpdateField(UpdateCheckbox(d, k, b), f, v));
  }

  datatype CheckboxItem = CheckboxItem(key: CheckKey, caption: string)

  /** The `checkboxItems` list the checklist is drawn from. */
  const CheckboxItems: seq<CheckboxItem> := [
    CheckboxItem(VocalVariety, "Vocal Variety"),
    CheckboxItem(BodyLanguage, "Body Language"),
    CheckboxItem(Pauses, "Pauses"),
    CheckboxItem(AudienceAwareness, "Audience Awareness"),
    CheckboxItem(CallToAction, "Call to Action"),
    CheckboxItem(RuleOfThree, "Rule of Three"),
    CheckboxItem(ExamplesAnalogies, "Examples/Analogies"),
    CheckboxItem(ContentStructure, "Content Structure"),
    CheckboxItem(Dialog, "Dialogue (Role Play)"),
    CheckboxItem(FirstLineLastLine, "First Line-Last Line")
  ]

  /** Where a key sits in the checklist. */
  function ItemIndex(k: CheckKey): (i: nat)
    ensures i < |CheckboxItems| && CheckboxItems[i].key == k
  {
    match k
    case VocalVariety => 0
    case BodyLanguage => 1
    case Pauses => 2
    case AudienceAwareness => 3
    case CallToAction => 4
    case RuleOfThree => 5
    case ExamplesAnalogies => 6
    case ContentStructure => 7
    case Dialog => 8
    case FirstLineLastLine => 9
  }

  /**
   * The checklist shows every entry of the record exactly once: `ItemIndex` undoes the
   * list, so each key sits at `ItemIndex(k)` and at no other position.
   */
  lemma CheckboxItemsEachOnce()
    ensures |CheckboxItems| == 10
    ensures forall i :: 0 <= i < |CheckboxItems| ==> ItemIndex(CheckboxItems[i].key) == i
    ensures forall i, j :: 0 <= i < j < |CheckboxItems| ==> CheckboxItems[i].key != CheckboxItems[j].key
  {
  }
}
