/** The home page's countdown to the top of the hour: every second it reads
    the wall clock's minute and second and shows `59 - minute % 60` minutes
    and `59 - second` seconds as "M:SS". The clock reading is an input; the
    initial display state is a pair of constants. */
module Countdown {
  import opened Results
  import opened DecimalText

  /** A seconds reading of the clock (`Date.prototype.getSeconds` is always 0..59). */
  type Second = s: nat | s < 60

  /** The timer text before the first tick. */
  const InitialTimeLeft: string := "59:59"

  /** The jackpot text before any amount is known. */
  const InitialJackpot: string := "0.0000"

  /** Whole minutes left in the hour: the minute reading counted back from 59. */
  function MinutesLeft(minute: nat): (m: nat)
    ensures m < 60
    ensures minute % 60 + m == 59
  {
    59 - minute % 60
  }

  /** Seconds left in the minute: the seconds reading counted back from 59. */
  function SecondsLeft(second: Second): (s: Second)
    ensures second + s == 59
  {
    59 - second
  }

  /** `${minutes}:${seconds.toString().padStart(2, '0')}` */
  function Render(minutes: nat, seconds: nat): string
  {
    NatToString(minutes) + ":" + PadStart(NatToString(seconds), 2, '0')
  }

  /** The timer text for a clock reading of `minute` and `second`: the minutes
      left without padding, a colon, and two digits of seconds. */
  function TimeLeft(minute: nat, second: Second): (text: string)
    ensures 4 <= |text| <= 5
    ensures text[|text| - 3] == ':'
    ensures text[..|text| - 3] == NatToString(MinutesLeft(minute))
  {
    RenderShape(MinutesLeft(minute), SecondsLeft(second));
    Render(MinutesLeft(minute), SecondsLeft(second))
  }

  /** Below one hour, the text is one or two minute digits, a colon, and exactly two second digits. */
  lemma RenderShape(m: nat, s: nat)
    requires m < 60 && s < 60
    ensures var text := Render(m, s);
      && 4 <= |text| <= 5
      && text[|text| - 3] == ':'
      && text[..|text| - 3] == NatToString(m)
      && text[|text| - 2..] == PadStart(NatToString(s), 2, '0')
  {
    Pow10Of2();
    NatToStringLength(m, 2);
    NatToStringLength(s, 2);
    PadStartRoundTrip(s, 2);
    var whole := NatToString(m);
    var frac := PadStart(NatToString(s), 2, '0');
    assert |frac| == 2;
    AroundSeparator(whole, ':', frac);
  }

  /** Reads "M:SS" back into minutes and seconds; None for any other shape. */
  function ParseTimeLeft(text: string): Option<(nat, nat)>
  {
    if |text| >= 4 && text[|text| - 3] == ':'
       && AllDigits(text[..|text| - 3]) && AllDigits(text[|text| - 2..])
    then Some((StringToNat(text[..|text| - 3]), StringToNat(text[|text| - 2..])))
    else None
  }

  /** The timer text reads back as the minutes and seconds left. */
  lemma TimeLeftRoundTrip(minute: nat, second: Second)
    ensures ParseTimeLeft(TimeLeft(minute, second)) == Some((MinutesLeft(minute), SecondsLeft(second)))
  {
    var m := MinutesLeft(minute);
    var s := SecondsLeft(second);
    RenderShape(m, s);
    NatToStringRoundTrip(m);
    PadStartRoundTrip(s, 2);
  }

  /** Seconds left until the top of the hour, as displayed. */
  function DisplayedSeconds(minute: nat, second: Second): (total: nat)
    ensures total < 3600
    ensures total == 3599 - (minute % 60 * 60 + second)
  {
    MinutesLeft(minute) * 60 + SecondsLeft(second)
  }

  /** One second later in the same hour, the display shows one second less. */
  lemma CountsDownBySecond(minute: nat, second: Second)
    requires minute % 60 < 59 || second < 59
    ensures var later := if second < 59 then DisplayedSeconds(minute, second + 1)
                         else DisplayedSeconds(minute + 1, 0);
      later == DisplayedSeconds(minute, second) - 1
  {
    if second == 59 {
      assert (minute + 1) % 60 == minute % 60 + 1;
    }
  }

  /** The initial timer text is what the first tick shows at the top of an hour. */
  lemma InitialTimeLeftIsTopOfHour()
    ensures TimeLeft(0, 0) == InitialTimeLeft
    ensures ParseTimeLeft(InitialTimeLeft) == Some((59, 59))
  {
    var digits := NatToString(59);
    assert digits == NatToString(5) + [DigitChar(9)];
    assert digits == "59";
    assert PadStart(digits, 2, '0') == digits;
    assert Render(59, 59) == InitialTimeLeft;
    TimeLeftRoundTrip(0, 0);
  }

  /** The initial jackpot text is zero written to four places. */
  lemma InitialJackpotIsZero()
    ensures FixedPoint(0, 4) == InitialJackpot
  {
    Pow10Of4();
    assert NatToString(0) == "0";
  }
}
