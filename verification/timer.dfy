/**
 * The Timer page: a stopwatch whose repeating one-second callback is modelled by
 * an explicit `Tick` that can only happen while an interval handle exists, four
 * presets (the last one editable), and the start / pause / reset controls.
 */
module TimerPage {
  import opened Wrappers
  import opened TimerUtils

  datatype Preset = Preset(name: string, description: string, config: TimerConfig)

  /** The `timerPresets` list of the page. */
  const Presets: seq<Preset> := [
    Preset("Speech", "5-7 minutes", TimerConfig(300, 360, 420)),
    Preset("Table Topics", "1-2 minutes", TimerConfig(60, 90, 120)),
    Preset("Evaluation", "2-3 minutes", TimerConfig(120, 150, 180)),
    Preset("Custom", "Set your own times", TimerConfig(60, 90, 120))
  ]

  /** The preset whose thresholds come from the user's custom configuration. */
  const CustomIndex: nat := 3

  lemma PresetsAscending()
    ensures |Presets| == 4 && Presets[CustomIndex].name == "Custom"
    ensures forall i :: 0 <= i < |Presets| ==> Ascending(Presets[i].config)
  {
  }

  /**
   * The page's state: the selected preset, the elapsed seconds, the running flag,
   * whether an interval handle is held, and the custom thresholds.
   */
  datatype TimerState = TimerState(
    selectedPreset: nat,
    seconds: nat,
    isRunning: bool,
    hasInterval: bool,
    customConfig: TimerConfig)

  /** The state when the page mounts. */
  const Initial: TimerState := TimerState(0, 0, false, false, TimerConfig(60, 90, 120))

  /** The invariant every reachable state keeps: a valid preset, and a handle exactly while running. */
  predicate Valid(st: TimerState) {
    st.selectedPreset < |Presets| && (st.isRunning <==> st.hasInterval)
  }

  /** `currentConfig`: the custom thresholds for the custom preset, the preset's own otherwise. */
  function CurrentConfig(st: TimerState): (c: TimerConfig)
    requires st.selectedPreset < |Presets|
    ensures st.selectedPreset == CustomIndex ==> c == st.customConfig
    ensures st.selectedPreset != CustomIndex ==> c == Presets[st.selectedPreset].config
    ensures st.selectedPreset != CustomIndex ==> Ascending(c)
  {
    PresetsAscending();
    if st.selectedPreset == CustomIndex then st.customConfig else Presets[st.selectedPreset].config
  }

  /** `startTimer`: does nothing while a handle exists; otherwise starts running and takes a handle. */
  function StartTimer(st: TimerState): (r: TimerState)
    ensures r.hasInterval
    ensures r.seconds == st.seconds && r.selectedPreset == st.selectedPreset && r.customConfig == st.customConfig
    ensures st.hasInterval ==> r == st
    ensures !st.hasInterval ==> r.isRunning
  {
    if st.hasInterval then st else st.(isRunning := true, hasInterval := true)
  }

  /** One firing of the interval callback; there is no firing without a handle. */
  function Tick(st: TimerState): (r: Option<TimerState>)
    ensures r.Some? <==> st.hasInterval
    ensures r.Some? ==> r.value.seconds == st.seconds + 1 && r.value.(seconds := st.seconds) == st
  {
    if st.hasInterval then Some(st.(seconds := st.seconds + 1)) else None
  }

  /** `pauseTimer`: drops the handle and stops running; the elapsed time is kept. */
  function PauseTimer(st: TimerState): (r: TimerState)
    ensures !r.isRunning && !r.hasInterval
    ensures r.seconds == st.seconds && r.selectedPreset == st.selectedPreset && r.customConfig == st.customConfig
  {
    st.(isRunning := false, hasInterval := false)
  }

  /** `resetTimer`: drops the handle, stops running and clears the elapsed time. */
  function ResetTimer(st: TimerState): (r: TimerState)
    ensures r.seconds == 0 && !r.isRunning && !r.hasInterval
    ensures r.selectedPreset == st.selectedPreset && r.customConfig == st.customConfig
  {
    st.(seconds := 0, isRunning := false, hasInterval := false)
  }

  /** `handlePresetChange`: resets the timer, then selects the preset. */
  function HandlePresetChange(st: TimerState, index: nat): (r: TimerState)
    requires index < |Presets|
    ensures r.selectedPreset == index && r.customConfig == st.customConfig
    ensures r.seconds == 0 && !r.isRunning && !r.hasInterval
  {
    ResetTimer(st).(selectedPreset := index)
  }

  datatype ConfigField = Green | Yellow | Red

  function Get(c: TimerConfig, f: ConfigField): int {
    match f
    case Green => c.green
    case Yellow => c.yellow
    case Red => c.red
  }

  /** `updateCustomTime`: one custom threshold becomes the given minutes in seconds. */
  function UpdateCustomTime(st: TimerState, field: ConfigField, minutes: int): (r: TimerState)
    ensures Get(r.customConfig, field) == minutes * 60
    ensures forall g :: g != field ==> Get(r.customConfig, g) == Get(st.customConfig, g)
    ensures r.(customConfig := st.customConfig) == st
  {
    var c := st.customConfig;
    var c' := match field
      case Green => c.(green := minutes * 60)
      case Yellow => c.(yellow := minutes * 60)
      case Red => c.(red := minutes * 60);
    st.(customConfig := c')
  }

  /** What the user or the interval can do to the page. */
  datatype Event = Start | Pause | Reset | TickEvent | PresetChange(index: nat) | UpdateCustom(field: ConfigField, minutes: int)

  /** The effect of one event; None when the event cannot happen in this state. */
  function Step(st: TimerState, e: Event): (r: Option<TimerState>)
    ensures r.None? <==> (e == TickEvent && !st.hasInterval) || (e.PresetChange? && e.index >= |Presets|)
  {
    match e
    case Start => Some(StartTimer(st))
    case Pause => Some(PauseTimer(st))
    case Reset => Some(ResetTimer(st))
    case TickEvent => Tick(st)
    case PresetChange(i) => if i < |Presets| then Some(HandlePresetChange(st, i)) else None
    case UpdateCustom(f, m) => Some(UpdateCustomTime(st, f, m))
  }

  /** The state after a sequence of events, or None if one of them could not happen. */
  function Run(st: TimerState, events: seq<Event>): Option<TimerState>
    decreases |events|
  {
    if |events| == 0 then Some(st)
    else
      match Step(st, events[0])
      case None => None
      case Some(next) => Run(next, events[1..])
  }

  lemma StepKeepsValid(st: TimerState, e: Event)
    requires Valid(st)
    ensures Step(st, e).Some? ==> Valid(Step(st, e).value)
  {
  }

  /** Whatever happens on the page, the running flag and the interval handle agree. */
  lemma {:induction false} RunKeepsValid(st: TimerState, events: seq<Event>)
    requires Valid(st)
    ensures Run(st, events).Some? ==> Valid(Run(st, events).value) && Run(st, events).value.isRunning == Run(st, events).value.hasInterval
    decreases |events|
  {
    if |events| > 0 {
      StepKeepsValid(st, events[0]);
      if Step(st, events[0]).Some? {
        RunKeepsValid(Step(st, events[0]).value, events[1..]);
      }
    }
  }

  lemma InitialValid()
    ensures Valid(Initial) && CurrentConfig(Initial) == Presets[0].config
  {
  }

  /** In a reachable state the clock advances only while running. */
  lemma TickOnlyWhileRunning(st: TimerState)
    requires Valid(st)
    ensures Step(st, TickEvent).Some? <==> st.isRunning
  {
  }

  /** Starting and pausing at once leaves the elapsed time where it was. */
  lemma StartThenPause(st: TimerState)
    ensures Run(st, [Start, Pause]) == Some(PauseTimer(st))
    ensures Run(st, [Start, Pause]).value.seconds == st.seconds
  {
  }

  /** Resetting twice is resetting once. */
  lemma ResetIdempotent(st: TimerState)
    ensures ResetTimer(ResetTimer(st)) == ResetTimer(st)
  {
  }

  /** The status line says "Running" or "Time's up!" exactly while the interval handle is held. */
  lemma StatusShowsRunning(st: TimerState)
    requires Valid(st)
    ensures GetTimerStatus(st.seconds, st.isRunning, CurrentConfig(st)) in {TimesUp, Running} <==> st.hasInterval
    ensures !st.isRunning ==> GetTimerStatus(st.seconds, st.isRunning, CurrentConfig(st)) != TimesUp
  {
  }
}
