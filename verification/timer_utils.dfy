/**
 * The timer display helpers: the three-threshold configuration, the `m:ss`
 * rendering of elapsed seconds, the colour band the elapsed time has reached,
 * and the status line under the clock.
 */
module TimerUtils {
  import opened Wrappers
  import Text

  /** Thresholds in seconds at which the card turns green, yellow and red. */
  datatype TimerConfig = TimerConfig(green: int, yellow: int, red: int)

  /** The shape every built-in configuration has: non-negative and green before yellow before red. */
  predicate Ascending(c: TimerConfig) {
    0 <= c.green <= c.yellow <= c.red
  }

  /** The `timerConfigs` table of the helper library. */
  const TimerConfigs: map<string, TimerConfig> := map[
    "speech" := TimerConfig(180, 210, 240),
    "tableTopics" := TimerConfig(60, 90, 120),
    "evaluation" := TimerConfig(60, 90, 120)
  ]

  lemma TimerConfigsAscending()
    ensures TimerConfigs.Keys == {"speech", "tableTopics", "evaluation"}
    ensures forall k :: k in TimerConfigs ==> Ascending(TimerConfigs[k])
  {
  }

  /**
   * JavaScript's `seconds % 60`: the remainder takes the sign of the dividend (Dafny's
   * `%` never goes negative).
   */
  function JsRem60(seconds: int): (r: int)
    ensures -60 < r < 60 && (seconds - r) % 60 == 0
    ensures seconds >= 0 ==> r >= 0
    ensures seconds < 0 ==> r <= 0
  {
    if seconds >= 0 then seconds % 60 else -((-seconds) % 60)
  }

  /** Minutes, a colon and two characters: the colon sits third from the end. */
  lemma ClockFaceParts(mins: string, secs: string)
    requires |secs| == 2
    ensures var r := mins + ":" + secs;
      && |r| == |mins| + 3 && r[|r| - 3] == ':' && r[..|r| - 3] == mins && r[|r| - 2..] == secs
  {
  }

  /**
   * `formatTime`: `Math.floor(seconds / 60)`, a colon, and `seconds % 60` padded to two
   * characters. On elapsed time the result is whole minutes and exactly two digits;
   * a negative threshold shows a minus sign.
   */
  function FormatTime(seconds: int): (r: string)
    ensures seconds >= 0 ==> |r| >= 4 && r[|r| - 3] == ':'
    ensures seconds >= 0 ==> var mins := r[..|r| - 3];
      && Text.AllDigits(mins) && (|mins| == 1 || mins[0] != '0') && Text.ParseNat(mins) == seconds / 60
    ensures seconds >= 0 ==> Text.AllDigits(r[|r| - 2..]) && Text.ParseNat(r[|r| - 2..]) == seconds % 60 < 60
    ensures |r| > 0 && (seconds < 0 <==> r[0] == '-')
  {
    var mins := Text.IntToString(seconds / 60);
    var padded := Text.PadStart(Text.IntToString(JsRem60(seconds)), 2, '0');
    if seconds >= 0 then
      PaddedSeconds(seconds % 60);
      ClockFaceParts(mins, padded);
      mins + ":" + padded
    else
      mins + ":" + padded
  }

  /**
   * A negative, non-whole-minute threshold shows a minute too few: the minutes are
   * floored while the seconds keep the sign of the threshold.
   */
  lemma NegativeTimeShownMinuteEarly(seconds: int)
    requires seconds < 0
    ensures var m := seconds / 60; var t := JsRem60(seconds);
      && FormatTime(seconds) == Text.IntToString(m) + ":" + Text.PadStart(Text.IntToString(t), 2, '0')
      && -60 < t <= 0
      && 60 * m + t == if seconds % 60 == 0 then seconds else seconds - 60
  {
    FloorMinutesTruncatedSeconds(seconds);
  }

  lemma FloorMinutesTruncatedSeconds(seconds: int)
    requires seconds < 0
    ensures 60 * (seconds / 60) + JsRem60(seconds) == if seconds % 60 == 0 then seconds else seconds - 60
  {
    var a := -seconds;
    var q, rest := a / 60, a % 60;
    assert a == 60 * q + rest;
    if rest == 0 {
      assert seconds == 60 * -q + 0;
      assert seconds / 60 == -q && seconds % 60 == 0;
    } else {
      assert seconds == 60 * (-q - 1) + (60 - rest);
      assert seconds / 60 == -q - 1 && seconds % 60 == 60 - rest;
    }
  }

  /** Half a minute below zero shows as `-1:-30`, which reads as ninety seconds below zero. */
  lemma MinusHalfMinute()
    ensures FormatTime(-30) == "-1:-30"
  {
    assert JsRem60(-30) == -30;
    assert -30 / 60 == -1;
  }

  /** Seconds below a minute pad to two digits that read back as the seconds. */
  lemma PaddedSeconds(n: nat)
    requires n < 60
    ensures var p := Text.PadStart(Text.IntToString(n), 2, '0');
      |p| == 2 && Text.AllDigits(p) && Text.ParseNat(p) == n
  {
    var secs := Text.IntToString(n);
    assert secs == Text.NatToString(n);
    Text.NatToStringLength(n);
    if |secs| == 1 {
      assert Text.PadStart(secs, 2, '0') == "0" + secs;
      Text.ParseNatLeadingZero(secs);
    }
  }

  /** Reads `m:ss` back as a number of seconds; None for text of any other shape. */
  function ParseTime(t: string): Option<nat> {
    match Text.IndexOf(t, ':')
    case None => None
    case Some(k) => ReadClock(t[..k], t[k + 1..])
  }

  /** The two sides of the colon: some digits, then exactly two digits below 60. */
  function ReadClock(mins: string, secs: string): Option<nat> {
    if |mins| > 0 && Text.AllDigits(mins) && |secs| == 2 && Text.AllDigits(secs) && Text.ParseNat(secs) < 60
    then Some(60 * Text.ParseNat(mins) + Text.ParseNat(secs))
    else None
  }

  /** Reading the clock face back gives the elapsed seconds. */
  lemma FormatTimeRoundTrip(seconds: nat)
    ensures ParseTime(FormatTime(seconds)) == Some(seconds)
  {
    var mins := Text.IntToString(seconds / 60);
    var secs := Text.PadStart(Text.IntToString(JsRem60(seconds)), 2, '0');
    assert FormatTime(seconds) == mins + [':'] + secs;
    PaddedSeconds(seconds % 60);
    DigitsHaveNoColon(mins);
    ParseClockFace(mins, secs);
    ReadClockDigits(mins, secs);
  }

  lemma DigitsHaveNoColon(s: string)
    requires Text.AllDigits(s)
    ensures ':' !in s
  {
  }

  /** Text with one colon is read at that colon. */
  lemma ParseClockFace(mins: string, secs: string)
    requires ':' !in mins
    ensures ParseTime(mins + [':'] + secs) == ReadClock(mins, secs)
  {
    var t := mins + [':'] + secs;
    Text.IndexOfAfter(mins, ':', secs);
    assert t[..|mins|] == mins && t[|mins| + 1..] == secs;
  }

  /** Digits, then two digits below 60, read as minutes and seconds. */
  lemma ReadClockDigits(mins: string, secs: string)
    requires |mins| > 0 && Text.AllDigits(mins)
    requires |secs| == 2 && Text.AllDigits(secs) && Text.ParseNat(secs) < 60
    ensures ReadClock(mins, secs) == Some(60 * Text.ParseNat(mins) + Text.ParseNat(secs))
  {
  }

  /** The colour bands, ordered by the threshold that opens them. */
  datatype Band = NoBand | GreenBand | YellowBand | RedBand {
    function Rank(): nat {
      match this
      case NoBand => 0
      case GreenBand => 1
      case YellowBand => 2
      case RedBand => 3
    }

    /** The CSS class the timer card gets; the empty class leaves the card neutral. */
    function ColorClass(): (r: string)
      ensures r == "" <==> this == NoBand
    {
      match this
      case NoBand => ""
      case GreenBand => "timer-green"
      case YellowBand => "timer-yellow"
      case RedBand => "timer-red"
    }
  }

  /** Each band has its own class, so the card's class tells the band. */
  lemma ColorClassesDistinct(a: Band, b: Band)
    ensures a.ColorClass() == b.ColorClass() <==> a == b
  {
  }

  function Threshold(config: TimerConfig, b: Band): int
    requires b != NoBand
  {
    match b
    case GreenBand => config.green
    case YellowBand => config.yellow
    case RedBand => config.red
  }

  /** `getTimerColor`: red is tested first, then yellow, then green. */
  function GetTimerColor(seconds: int, config: TimerConfig): (b: Band)
    ensures b == RedBand <==> seconds >= config.red
    ensures b == YellowBand <==> config.yellow <= seconds < config.red
    ensures b == GreenBand <==> config.green <= seconds && seconds < config.yellow && seconds < config.red
    ensures b == NoBand <==> seconds < config.green && seconds < config.yellow && seconds < config.red
  {
    if seconds >= config.red then RedBand
    else if seconds >= config.yellow then YellowBand
    else if seconds >= config.green then GreenBand
    else NoBand
  }

  /** The band shown is the highest-ranked band whose threshold has been reached, for any configuration. */
  lemma BandIsHighestReached(seconds: int, config: TimerConfig, b: Band)
    requires b != NoBand
    ensures var shown := GetTimerColor(seconds, config);
      && (shown != NoBand ==> Threshold(config, shown) <= seconds)
      && (Threshold(config, b) <= seconds ==> b.Rank() <= shown.Rank())
  {
  }

  /** As time passes the band only moves up: none, green, yellow, red. */
  lemma BandMonotone(s1: int, s2: int, config: TimerConfig)
    requires s1 <= s2
    ensures GetTimerColor(s1, config).Rank() <= GetTimerColor(s2, config).Rank()
  {
  }

  /** With ascending thresholds each band covers exactly the interval between its threshold and the next. */
  lemma AscendingBands(seconds: int, config: TimerConfig)
    requires Ascending(config)
    ensures GetTimerColor(seconds, config) == NoBand <==> seconds < config.green
    ensures GetTimerColor(seconds, config) == GreenBand <==> config.green <= seconds < config.yellow
    ensures GetTimerColor(seconds, config) == YellowBand <==> config.yellow <= seconds < config.red
  {
  }

  datatype Status = TimesUp | Running | Paused | Ready {
    function Label(): string {
      match this
      case TimesUp => "Time's up!"
      case Running => "Running"
      case Paused => "Paused"
      case Ready => "Ready"
    }
  }

  /** `getTimerStatus`: the status line under the clock. */
  function GetTimerStatus(seconds: int, isRunning: bool, config: TimerConfig): (r: Status)
    ensures r == TimesUp <==> isRunning && seconds >= config.red
    ensures r == Running <==> isRunning && seconds < config.red
    ensures r == Paused <==> !isRunning && seconds > 0
    ensures r == Ready <==> !isRunning && seconds <= 0
  {
    if seconds >= config.red && isRunning then TimesUp
    else if isRunning then Running
    else if seconds > 0 then Paused
    else Ready
  }

  /** The four status labels are distinct, so the label alone tells the status. */
  lemma StatusLabelsDistinct(a: Status, b: Status)
    ensures a.Label() == b.Label() <==> a == b
  {
  }
}
