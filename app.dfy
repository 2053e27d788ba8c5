/**
 * The two pure pieces of the widget's front end (frontend/src/App.tsx): the
 * `remainingDisplay` formatter that renders the snapshot's remaining seconds
 * as `MM:SS`, and `handleSettingsChange`, which replaces one field of the
 * settings draft.
 */
module App {
  import opened Wrappers
  import opened Models

  // ------------------------------------------------------ decimal digits

  predicate IsDigit(c: char) {
    '0' <= c <= '9'
  }

  predicate AllDigits(s: string) {
    forall i :: 0 <= i < |s| ==> IsDigit(s[i])
  }

  function DigitChar(d: nat): (c: char)
    requires d < 10
    ensures IsDigit(c) && DigitValue(c) == d
  {
    (d + '0' as int) as char
  }

  function DigitValue(c: char): nat
    requires IsDigit(c)
  {
    c as int - '0' as int
  }

  /** The number a string of decimal digits denotes (leading zeros allowed). */
  function DigitsValue(s: string): nat
    requires AllDigits(s)
    decreases |s|
  {
    if s == [] then 0 else DigitsValue(s[..|s| - 1]) * 10 + DigitValue(s[|s| - 1])
  }

  /** JavaScript's `String(n)` on a non-negative integer: its decimal digits, without leading zeros. */
  function DecimalString(n: nat): (r: string)
    ensures |r| >= 1 && AllDigits(r) && DigitsValue(r) == n
    ensures r[0] == '0' ==> r == "0"
    decreases n
  {
    if n < 10 then [DigitChar(n)]
    else
      var high := DecimalString(n / 10);
      var r := high + [DigitChar(n % 10)];
      assert r[..|r| - 1] == high;
      r
  }

  function Repeat(c: char, n: nat): (r: string)
    ensures |r| == n && forall i :: 0 <= i < n ==> r[i] == c
  {
    seq(n, _ => c)
  }

  /** JavaScript's `s.padStart(width, fill)` for a one-character fill. */
  function PadStart(s: string, width: nat, fill: char): (r: string)
    ensures |r| == if |s| < width then width else |s|
    ensures r[|r| - |s|..] == s
    ensures forall i :: 0 <= i < |r| - |s| ==> r[i] == fill
  {
    if |s| < width then Repeat(fill, width - |s|) + s else s
  }

  lemma {:induction false} ZerosValue(z: nat)
    ensures AllDigits(Repeat('0', z)) && DigitsValue(Repeat('0', z)) == 0
  {
    if z > 0 {
      assert Repeat('0', z)[..z - 1] == Repeat('0', z - 1);
      ZerosValue(z - 1);
    }
  }

  /** Zero padding on the left keeps a digit string's value. */
  lemma {:induction false} ZeroPaddingKeepsValue(s: string, width: nat)
    requires AllDigits(s)
    ensures AllDigits(PadStart(s, width, '0'))
    ensures DigitsValue(PadStart(s, width, '0')) == DigitsValue(s)
  {
    if |s| < width {
      LeadingZerosKeepValue(width - |s|, s);
    }
  }

  lemma {:induction false} LeadingZerosKeepValue(z: nat, s: string)
    requires AllDigits(s)
    ensures AllDigits(Repeat('0', z) + s)
    ensures DigitsValue(Repeat('0', z) + s) == DigitsValue(s)
    decreases |s|
  {
    var p := Repeat('0', z) + s;
    if s == [] {
      assert p == Repeat('0', z);
      ZerosValue(z);
    } else {
      assert p[..|p| - 1] == Repeat('0', z) + s[..|s| - 1];
      LeadingZerosKeepValue(z, s[..|s| - 1]);
    }
  }

  // ------------------------------------------------- remaining display

  /** What the timer shows when there is no positive remaining time. */
  const Placeholder: string := "--:--"

  /**
   * The `remainingDisplay` formatter: a null or zero value shows the
   * placeholder; otherwise the whole seconds, clamped at zero, are shown as
   * a clock.
   */
  function RemainingDisplay(remainingSeconds: Option<int>): (r: string)
    ensures r == Placeholder <==> remainingSeconds.None? || remainingSeconds.value == 0
  {
    if remainingSeconds.None? || remainingSeconds.value == 0 then Placeholder
    else
      var total: nat := if remainingSeconds.value < 0 then 0 else remainingSeconds.value;
      var r := ClockText(total / 60, total % 60);
      assert r[0] != Placeholder[0];
      r
  }

  /** Minutes and seconds, each zero-padded to two digits, joined by a colon. */
  function ClockText(minutes: nat, seconds: nat): (r: string)
    ensures |r| >= 5 && IsDigit(r[0])
  {
    PaddedField(minutes) + ":" + PaddedField(seconds)
  }

  /**
   * The shape of a clock reading `minutes` and `seconds`: at least two
   * minute digits, one colon, exactly two second digits, every other
   * character a digit, and the two fields read back as the given numbers.
   */
  predicate IsClock(r: string, minutes: nat, seconds: nat) {
    && |r| >= 5
    && r[|r| - 3] == ':'
    && (forall i :: 0 <= i < |r| && i != |r| - 3 ==> IsDigit(r[i]))
    && AllDigits(r[..|r| - 3]) && AllDigits(r[|r| - 2..])
    && DigitsValue(r[..|r| - 3]) == minutes
    && DigitsValue(r[|r| - 2..]) == seconds
  }

  /** A clock of seconds below 60 has the clock shape and reads back as its minutes and seconds. */
  lemma ClockTextShape(minutes: nat, seconds: nat)
    requires seconds < 60
    ensures IsClock(ClockText(minutes, seconds), minutes, seconds)
  {
    PaddedFieldValue(minutes);
    PaddedFieldValue(seconds);
    SecondsFieldWidth(seconds);
    JoinShape(PaddedField(minutes), PaddedField(seconds), minutes, seconds);
  }

  /** A number's decimal text, zero-padded to two characters. */
  function PaddedField(n: nat): string {
    PadStart(DecimalString(n), 2, '0')
  }

  lemma PaddedFieldValue(n: nat)
    ensures |PaddedField(n)| >= 2 && AllDigits(PaddedField(n)) && DigitsValue(PaddedField(n)) == n
  {
    ZeroPaddingKeepsValue(DecimalString(n), 2);
  }

  lemma SecondsFieldWidth(n: nat)
    requires n < 60
    ensures |PaddedField(n)| == 2
  {
    var d := DecimalString(n);
    if |d| > 2 {
      DigitsAtLeast(d);
    }
  }

  lemma JoinShape(minutes: string, seconds: string, m: nat, sec: nat)
    requires AllDigits(minutes) && AllDigits(seconds) && |minutes| >= 2 && |seconds| == 2
    requires DigitsValue(minutes) == m && DigitsValue(seconds) == sec
    ensures IsClock(minutes + ":" + seconds, m, sec)
  {
    var r := minutes + ":" + seconds;
    assert r[..|r| - 3] == minutes;
    assert r[|r| - 2..] == seconds;
  }

  /**
   * What a positive or negative remaining value shows: a clock whose fields
   * read back as the minutes and the seconds below 60 of the whole seconds
   * clamped at zero, so that minutes times 60 plus seconds is that total.
   */
  lemma DisplayShape(n: int)
    requires n != 0
    ensures var total := if n < 0 then 0 else n;
      && IsClock(RemainingDisplay(Some(n)), total / 60, total % 60)
      && total % 60 < 60
      && (total / 60) * 60 + total % 60 == total
  {
    var total: nat := if n < 0 then 0 else n;
    DisplayIsClock(n);
    ClockTextShape(total / 60, total % 60);
  }

  /** A digit string of three or more characters without a leading zero denotes at least 100. */
  lemma {:induction false} DigitsAtLeast(s: string)
    requires AllDigits(s) && |s| >= 3 && s[0] != '0'
    ensures DigitsValue(s) >= 100
    decreases |s|
  {
    var front := s[..|s| - 1];
    assert front[0] == s[0];
    if |s| > 3 {
      DigitsAtLeast(front);
    } else {
      assert front[..1] == [s[0]];
      assert DigitsValue(front[..1]) == DigitValue(s[0]);
    }
  }

  /** Three shown times: minutes and seconds are padded, minutes may have more than two digits, and a negative value shows as zero. */
  lemma DisplayExamples()
    ensures RemainingDisplay(Some(125)) == "02:05"
    ensures RemainingDisplay(Some(7200)) == "120:00"
    ensures RemainingDisplay(Some(-3)) == "00:00"
  {
    ShortClockExamples();
    LongClockExample();
    DisplayIsClock(125);
    assert 125 / 60 == 2 && 125 % 60 == 5;
    DisplayIsClock(7200);
    assert 7200 / 60 == 120 && 7200 % 60 == 0;
    DisplayIsClock(-3);
  }

  lemma DisplayIsClock(n: int)
    requires n != 0
    ensures var total := if n < 0 then 0 else n;
      RemainingDisplay(Some(n)) == ClockText(total / 60, total % 60)
  {
  }

  lemma ShortClockExamples()
    ensures ClockText(2, 5) == "02:05" && ClockText(0, 0) == "00:00"
  {
    SingleDigitField(0);
    SingleDigitField(2);
    SingleDigitField(5);
  }

  lemma SingleDigitField(d: nat)
    requires d < 10
    ensures PaddedField(d) == ['0', DigitChar(d)]
  {
    assert DecimalString(d) == [DigitChar(d)];
    assert Repeat('0', 1) == "0";
  }

  lemma LongClockExample()
    ensures ClockText(120, 0) == "120:00"
  {
    assert PaddedField(120) == "120" by {
      assert DecimalString(1) == "1";
      assert DecimalString(12) == "12";
      assert DecimalString(120) == "120";
    }
    SingleDigitField(0);
  }

  /** The timer shows the placeholder exactly when the backend reports no positive remaining time. */
  lemma DisplayOfSnapshot(st: PomodoroState, now: int)
    ensures RemainingDisplay(RemainingSeconds(st, now)) == Placeholder
        <==> !(st.isRunning && st.endsAt.Some? && now < st.endsAt.value)
  {
  }

  // ------------------------------------------------------ settings draft

  /** The fields of the settings draft. */
  datatype SettingsField = WorkMinutes | ShortBreakMinutes | LongBreakMinutes

  function FieldValue(s: Settings, f: SettingsField): int {
    match f
    case WorkMinutes => s.workMinutes
    case ShortBreakMinutes => s.shortBreakMinutes
    case LongBreakMinutes => s.longBreakMinutes
  }

  /**
   * The `handleSettingsChange` draft update: the named field takes the new
   * value, every other field keeps its value, and a missing draft stays
   * missing. The value is not checked against the settings bounds.
   */
  function HandleSettingsChange(draft: Option<Settings>, field: SettingsField, value: int): (r: Option<Settings>)
    ensures r.None? <==> draft.None?
    ensures r.Some? ==> FieldValue(r.value, field) == value
    ensures r.Some? ==> forall f :: f != field ==> FieldValue(r.value, f) == FieldValue(draft.value, f)
  {
    match draft
    case None => None
    case Some(s) =>
      Some(match field
        case WorkMinutes => s.(workMinutes := value)
        case ShortBreakMinutes => s.(shortBreakMinutes := value)
        case LongBreakMinutes => s.(longBreakMinutes := value))
  }

  /** The last change of a field wins, and changes of different fields commute. */
  lemma SettingsChangesCompose(draft: Option<Settings>, f: SettingsField, g: SettingsField, v: int, w: int)
    ensures HandleSettingsChange(HandleSettingsChange(draft, f, v), f, w) == HandleSettingsChange(draft, f, w)
    ensures f != g ==>
      HandleSettingsChange(HandleSettingsChange(draft, f, v), g, w) == HandleSettingsChange(HandleSettingsChange(draft, g, w), f, v)
  {
  }
}
