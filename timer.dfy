/**
  The Timer component: an integer count of seconds shown as "mm:ss", counted down by one per
  second while active, calling onTimeout at zero, reset to `seconds` while inactive, and drawn in
  the danger colour at or below `colorChangeSec`. The component's state is a class; each effect
  run is a method.
*/
module Timer {
  import opened Decimal

  /** JavaScript's String(n) for an integer. */
  function IntToString(n: int): (s: string)
    ensures |s| >= 1
    ensures s[0] == '-' <==> n < 0
  {
    if n < 0 then "-" + NatToString(-n) else NatToString(n)
  }

  /** JavaScript's `a % b` for b > 0: the remainder takes the sign of a (a negative zero prints as "0"). */
  function JsRem(a: int, b: int): (r: int)
    requires b > 0
    ensures -b < r < b
    ensures a >= 0 ==> r == a % b
  {
    if a >= 0 || a % b == 0 then a % b else a % b - b
  }

  /** `formatTime(sec)`: floor(sec / 60) and sec % 60, each padded to two characters with '0'. */
  function FormatTime(sec: int): string
  {
    PadStart(IntToString(sec / 60), 2, '0') + ":" + PadStart(IntToString(JsRem(sec, 60)), 2, '0')
  }

  /**
    For a non-negative count the text reads back: at least two digits of minutes, a colon, and
    exactly two digits of seconds, reading back as floor(sec / 60) and sec % 60 (so the seconds are
    below 60 and minutes * 60 + seconds == sec).
  */
  lemma FormatTimeReadsBack(sec: nat)
    ensures var text := FormatTime(sec);
            exists k :: 2 <= k < |text| && text[k] == ':' && k + 3 == |text| &&
                        AllDigits(text[..k]) && AllDigits(text[k + 1..]) &&
                        DigitsValue(text[..k]) == sec / 60 && DigitsValue(text[k + 1..]) == sec % 60
  {
    var mm := PadStart(NatToString(sec / 60), 2, '0');
    var ss := PadStart(NatToString(sec % 60), 2, '0');
    PaddedValue(sec / 60, 2);
    PaddedValue(sec % 60, 2);
    SixtyHasTwoDigits(sec % 60);
    FormatTimeNonNegative(sec);
    ColonSplit(mm, ss, sec / 60, sec % 60);
  }

  /** For a non-negative count neither part has a sign. */
  lemma FormatTimeNonNegative(sec: nat)
    ensures FormatTime(sec) == PadStart(NatToString(sec / 60), 2, '0') + ":" + PadStart(NatToString(sec % 60), 2, '0')
  {
    assert IntToString(sec / 60) == NatToString(sec / 60);
    assert IntToString(JsRem(sec, 60)) == NatToString(sec % 60);
  }

  /** The text of two digit strings joined by ':' splits back at the colon. */
  lemma ColonSplit(mm: string, ss: string, m: nat, s: nat)
    requires |mm| >= 2 && AllDigits(mm) && DigitsValue(mm) == m
    requires |ss| == 2 && AllDigits(ss) && DigitsValue(ss) == s
    ensures var text := mm + ":" + ss;
            exists k :: 2 <= k < |text| && text[k] == ':' && k + 3 == |text| &&
                        AllDigits(text[..k]) && AllDigits(text[k + 1..]) &&
                        DigitsValue(text[..k]) == m && DigitsValue(text[k + 1..]) == s
  {
    var text := mm + ":" + ss;
    var k := |mm|;
    assert text[k] == ':';
    assert text[..k] == mm;
    assert text[k + 1..] == ss;
  }

  lemma SixtyHasTwoDigits(s: nat)
    requires s < 60
    ensures |NatToString(s)| <= 2
  {
    NatToStringLength(s, 2, Pow10(2));
  }

  /** The default three minutes show as "03:00". */
  lemma FormatTimeThreeMinutes()
    ensures FormatTime(180) == "03:00"
  {
    assert IntToString(3) == "3";
    assert IntToString(JsRem(180, 60)) == "0";
  }

  /** A negative count, which the countdown never produces from a non-negative start, shows as "-1:-5". */
  lemma FormatTimeNegative()
    ensures FormatTime(-5) == "-1:-5"
  {
    assert -5 / 60 == -1;
    assert IntToString(-1) == "-1";
    assert JsRem(-5, 60) == -5;
    assert IntToString(-5) == "-5";
  }

  class TimerState {
    /** The remaining seconds (`time`). */
    var time: int
    /** How many times onTimeout has been called. */
    var timeouts: nat

    /** `useState(seconds)`. */
    constructor (seconds: int)
      ensures time == seconds && timeouts == 0
    {
      time := seconds;
      timeouts := 0;
    }

    /**
      The first effect, run once and followed by its one-second timeout firing: while active a
      positive count drops by exactly one; at zero onTimeout (when given) is called and the count
      stays at zero; inactive, or below zero, nothing happens.
    */
    method Tick(isActive: bool, hasOnTimeout: bool)
      modifies this
      ensures isActive && old(time) > 0 ==> time == old(time) - 1 && timeouts == old(timeouts)
      ensures isActive && old(time) == 0 ==> time == 0 && timeouts == old(timeouts) + (if hasOnTimeout then 1 else 0)
      ensures !(isActive && old(time) >= 0) ==> time == old(time) && timeouts == old(timeouts)
      ensures old(time) >= 0 ==> time >= 0
      ensures isActive && old(time) >= 0 ==> time == CountDown(old(time), 1)
    {
      if isActive && time > 0 {
        time := time - 1;
      } else if isActive && time == 0 {
        if hasOnTimeout {
          timeouts := timeouts + 1;
        }
      }
    }

    /** The second effect: while inactive the count goes back to `seconds`. */
    method SyncInactive(isActive: bool, seconds: int)
      modifies this
      ensures time == if isActive then old(time) else seconds
      ensures timeouts == old(timeouts)
    {
      if !isActive {
        time := seconds;
      }
    }

    /** The colour rule: danger exactly at or below `colorChangeSec`. */
    predicate Danger(colorChangeSec: int)
      reads this
    {
      time <= colorChangeSec
    }

    function Display(): string
      reads this
    {
      FormatTime(time)
    }
  }

  /** The count after k active ticks from t: it falls by one per tick and stops at zero. */
  function CountDown(t: nat, k: nat): nat
  {
    if k == 0 then t else CountDown(if t > 0 then t - 1 else 0, k - 1)
  }

  /** After k ticks from t the count is t - k, or 0 once k reaches t; it never goes below zero. */
  lemma {:induction false} CountDownValue(t: nat, k: nat)
    ensures CountDown(t, k) == if k <= t then t - k else 0
  {
    if k > 0 {
      CountDownValue(if t > 0 then t - 1 else 0, k - 1);
    }
  }

  /** The colour changes once on the way down: from then on every later count is in danger too. */
  lemma DangerStaysOn(t: nat, k: nat, k': nat, colorChangeSec: int)
    requires k <= k'
    requires CountDown(t, k) <= colorChangeSec
    ensures CountDown(t, k') <= colorChangeSec
  {
    CountDownValue(t, k);
    CountDownValue(t, k');
  }
}
