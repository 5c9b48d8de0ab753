/** The two computations of the statistics panel: the elapsed time shown
    as minutes and two-digit seconds, and the accuracy percentage. */
module GameStats {
  import opened Rules

  predicate IsDigit(c: char)
  {
    '0' <= c <= '9'
  }

  predicate AllDigits(s: string)
  {
    forall i :: 0 <= i < |s| ==> IsDigit(s[i])
  }

  function DigitChar(d: nat): (c: char)
    requires d < 10
    ensures IsDigit(c) && c as int - '0' as int == d
  {
    ('0' as int + d) as char
  }

  /** The decimal numeral of `n`, without leading zeros. */
  function NatToString(n: nat): (s: string)
    ensures |s| >= 1 && AllDigits(s)
    ensures n < 10 <==> |s| == 1
    ensures n < 100 ==> |s| <= 2
    decreases n
  {
    if n < 10 then [DigitChar(n)] else NatToString(n / 10) + [DigitChar(n % 10)]
  }

  /** The number a string of decimal digits denotes. */
  function DigitsValue(s: string): nat
    requires AllDigits(s)
  {
    if s == [] then 0 else DigitsValue(s[..|s| - 1]) * 10 + (s[|s| - 1] as int - '0' as int)
  }

  /** Reading back a numeral gives the number it was written from. */
  lemma {:induction false} NatToStringRoundTrip(n: nat)
    ensures DigitsValue(NatToString(n)) == n
    decreases n
  {
    var s := NatToString(n);
    if n >= 10 {
      NatToStringRoundTrip(n / 10);
      assert s[..|s| - 1] == NatToString(n / 10);
    }
  }

  /** A leading zero does not change the value of a numeral. */
  lemma {:induction false} LeadingZero(s: string)
    requires AllDigits(s)
    ensures AllDigits("0" + s) && DigitsValue("0" + s) == DigitsValue(s)
    decreases |s|
  {
    if s != [] {
      var t := "0" + s;
      assert t[..|t| - 1] == "0" + s[..|s| - 1];
      LeadingZero(s[..|s| - 1]);
    }
  }

  /** `s` padded on the left with `fill` up to `width` characters. */
  function PadStart(s: string, width: nat, fill: char): (r: string)
    ensures |r| == if |s| < width then width else |s|
    ensures r[|r| - |s|..] == s
    ensures forall i :: 0 <= i < |r| - |s| ==> r[i] == fill
    ensures AllDigits(s) && IsDigit(fill) ==> AllDigits(r)
  {
    if |s| < width then seq(width - |s|, _ => fill) + s else s
  }

  /** A minutes field and a seconds field joined by a colon. */
  function JoinTime(minutesText: string, secondsText: string): (r: string)
    requires |minutesText| >= 1 && |secondsText| == 2
    ensures |r| >= 4 && r[|r| - 3] == ':'
    ensures r[..|r| - 3] == minutesText && r[|r| - 2..] == secondsText
  {
    var tail := ":" + secondsText;
    var r := minutesText + tail;
    assert r[..|minutesText|] == minutesText && r[|minutesText|..] == tail;
    assert tail[1..] == secondsText;
    r
  }

  /** Elapsed seconds as minutes, a colon and exactly two digits of seconds. */
  function FormatTime(seconds: nat): (r: string)
    ensures |r| >= 4 && r[|r| - 3] == ':'
    ensures AllDigits(r[..|r| - 3]) && AllDigits(r[|r| - 2..])
  {
    JoinTime(NatToString(seconds / 60), PadStart(NatToString(seconds % 60), 2, '0'))
  }

  /** Reads a time in the displayed form back into seconds; anything else,
      or a seconds field of 60 or more, is rejected. */
  function ParseTime(s: string): Option<nat>
  {
    if |s| >= 4 && s[|s| - 3] == ':' && AllDigits(s[..|s| - 3]) && AllDigits(s[|s| - 2..])
       && DigitsValue(s[|s| - 2..]) < 60
    then Some(DigitsValue(s[..|s| - 3]) * 60 + DigitsValue(s[|s| - 2..]))
    else None
  }

  /** The two displayed seconds digits denote `secs`. */
  lemma PaddedSeconds(secs: nat)
    requires secs < 60
    ensures |PadStart(NatToString(secs), 2, '0')| == 2
    ensures AllDigits(PadStart(NatToString(secs), 2, '0'))
    ensures DigitsValue(PadStart(NatToString(secs), 2, '0')) == secs
  {
    var digits := NatToString(secs);
    NatToStringRoundTrip(secs);
    if |digits| < 2 {
      assert PadStart(digits, 2, '0') == "0" + digits;
      LeadingZero(digits);
    }
  }

  /** Joined fields holding the whole minutes and the remaining seconds of
      `seconds` read back as `seconds`. */
  lemma ParseJoinedFields(minutesText: string, secondsText: string, seconds: nat)
    requires |minutesText| >= 1 && AllDigits(minutesText) && DigitsValue(minutesText) == seconds / 60
    requires |secondsText| == 2 && AllDigits(secondsText) && DigitsValue(secondsText) == seconds % 60
    ensures ParseTime(JoinTime(minutesText, secondsText)) == Some(seconds)
  {
    assert (seconds / 60) * 60 + seconds % 60 == seconds;
  }

  /** The displayed time determines the elapsed seconds: minutes times 60
      plus the two-digit seconds field, which is below 60. */
  lemma FormatTimeRoundTrip(seconds: nat)
    ensures ParseTime(FormatTime(seconds)) == Some(seconds)
  {
    var mins, secs := seconds / 60, seconds % 60;
    var minutesText, secondsText := NatToString(mins), PadStart(NatToString(secs), 2, '0');
    NatToStringRoundTrip(mins);
    PaddedSeconds(secs);
    assert FormatTime(seconds) == JoinTime(minutesText, secondsText);
    ParseJoinedFields(minutesText, secondsText, seconds);
  }

  /** Different elapsed times are never displayed alike. */
  lemma FormatTimeInjective(a: nat, b: nat)
    requires FormatTime(a) == FormatTime(b)
    ensures a == b
  {
    FormatTimeRoundTrip(a);
    FormatTimeRoundTrip(b);
  }

  /** No time elapsed is shown as "0:00". */
  lemma FormatTimeOfZero()
    ensures FormatTime(0) == "0:00"
  {
    var zero := NatToString(0);
    assert zero == "0";
    var padded := PadStart(zero, 2, '0');
    assert padded == "00";
    assert JoinTime(zero, padded) == "0:00";
  }

  /** 75 seconds are shown as "1:15". */
  lemma FormatTimeOfSeventyFive()
    ensures FormatTime(75) == "1:15"
  {
    var one := NatToString(1);
    assert one == "1";
    var fifteen := NatToString(15);
    assert fifteen == one + [DigitChar(5)] == "15";
    var padded := PadStart(fifteen, 2, '0');
    assert padded == "15";
    var t := 75;
    assert t / 60 == 1 && t % 60 == 15;
    assert FormatTime(t) == JoinTime(one, padded);
    assert JoinTime(one, padded) == "1:15";
  }

  /** The accuracy shown by the statistics panel, as written: the matches
      divided by half the moves, as a rounded percentage, and 0 before the
      first move. */
  function AccuracyAsWritten(matches: nat, moves: nat): (r: nat)
    ensures moves == 0 ==> r == 0
    ensures moves > 0 ==> 2 * moves * r <= 400 * matches + moves < 2 * moves * (r + 1)
  {
    if moves > 0 then RoundHalfUp(200 * matches, moves) else 0
  }

  /** A move is one pair of cards turned over, so halving the moves counts
      every move twice: a game without a miss shows 200%. */
  lemma PerfectGameShowsTwoHundred(n: nat)
    requires n > 0
    ensures AccuracyAsWritten(n, n) == 200
  {
    RoundHalfUpOfFraction(n, n, 200);
  }

  /** The accuracy the panel evidently means: the share of moves that found
      a pair, as a rounded percentage, and 0 before the first move. */
  function Accuracy(matches: nat, moves: nat): (r: nat)
    ensures moves == 0 ==> r == 0
    ensures moves > 0 ==> 2 * moves * r <= 200 * matches + moves < 2 * moves * (r + 1)
  {
    if moves > 0 then RoundHalfUp(100 * matches, moves) else 0
  }

  /** While every match has cost a move the accuracy is a percentage, 100
      exactly when no move missed, and it agrees with the accuracy sent on
      completion once a move has been made. */
  lemma AccuracyIsPercentage(matches: nat, moves: nat)
    requires matches <= moves
    ensures Accuracy(matches, moves) <= 100
    ensures 0 < moves == matches ==> Accuracy(matches, moves) == 100
    ensures moves > 0 ==> Accuracy(matches, moves) == CompletionAccuracy(matches, moves)
  {
    if moves > 0 {
      RoundHalfUpOfFraction(matches, moves, 100);
    }
  }
}
