/**
 * Formatting utilities: plural suffixes and the `MM:SS` rendering of a
 * duration given in milliseconds.
 */
module Utils {
  import opened Text

  datatype Option<T> = None | Some(value: T)

  /** `make_plural(word, count, suffix_override='s')`: add the suffix when there is more than one. */
  function MakePlural(word: string, count: int, suffixOverride: string := "s"): (r: string)
    ensures count > 1 ==> r == word + suffixOverride
    ensures count <= 1 ==> r == word
  {
    if count > 1 then word + suffixOverride else word
  }

  /** The word is always kept as it is, and the default suffix is "s". */
  lemma MakePluralDefault(word: string, count: int)
    ensures MakePlural(word, count) == if count > 1 then word + "s" else word
    ensures MakePlural(word, count)[..|word|] == word
  {
  }

  /** Python `int(a / b)` for a positive divisor: the quotient truncated toward zero. */
  function TruncDiv(a: int, b: int): (q: int)
    requires b > 0
    ensures a >= 0 ==> q == a / b
    ensures a < 0 ==> q <= 0 && -q * b <= -a < (-q + 1) * b
  {
    if a >= 0 then a / b else -((-a) / b)
  }

  /** A field shown with at least two characters: `f"0{n}"` below ten. */
  function Padded(n: int): (r: string) {
    if n < 10 then "0" + IntToDecimal(n) else IntToDecimal(n)
  }

  /** `milliseconds_to_minutes_seconds(milliseconds)`: whole minutes, a colon and the
      remaining whole seconds. The seconds are reduced with Python's `%`, whose result
      is never negative for the divisor 60, exactly as Dafny's `%`. For a non-negative
      duration, reading the string back gives its whole seconds; the sub-second
      remainder is discarded. */
  function MillisecondsToMinutesSeconds(milliseconds: int): (r: string)
    ensures milliseconds >= 0 ==> ParseMinutesSeconds(r) == Some(milliseconds / 1000)
  {
    var seconds := TruncDiv(milliseconds, 1000);
    var minutes := TruncDiv(seconds, 60);
    var r := Padded(minutes) + ":" + Padded(seconds % 60);
    if minutes >= 0 then ClockFields(minutes, seconds % 60); r else r
  }

  /** Reads `MM:SS` back as a number of seconds: the digits before the last colon
      are minutes, the two digits after it are seconds below 60. */
  function ParseMinutesSeconds(s: string): Option<nat> {
    if |s| >= 4 && s[|s| - 3] == ':' && AllDigits(s[..|s| - 3]) && AllDigits(s[|s| - 2..])
       && DecimalValue(s[|s| - 2..]) < 60
    then Some(DecimalValue(s[..|s| - 3]) * 60 + DecimalValue(s[|s| - 2..]))
    else None
  }

  /** The two fields around the colon are found again where they were put, and read
      back as minutes and seconds. */
  lemma ClockFields(m: nat, s: nat)
    requires s < 60
    ensures var r := Padded(m) + ":" + Padded(s);
      |r| >= 5 && r[|r| - 3] == ':' && r[..|r| - 3] == Padded(m) && r[|r| - 2..] == Padded(s) &&
      ParseMinutesSeconds(r) == Some(m * 60 + s)
  {
    PaddedDigits(m);
    PaddedDigits(s);
    var r := Padded(m) + ":" + Padded(s);
    assert r[..|r| - 3] == Padded(m);
    assert r[|r| - 2..] == Padded(s);
  }

  /** For n >= 0 the field is its decimal digits, zero-padded to two when n < 10. */
  lemma {:induction false} PaddedDigits(n: nat)
    ensures AllDigits(Padded(n)) && DecimalValue(Padded(n)) == n
    ensures n < 10 ==> Padded(n) == "0" + NatToDecimal(n) && |Padded(n)| == 2
    ensures n >= 10 ==> Padded(n) == NatToDecimal(n) && |Padded(n)| >= 2
  {
    DecimalRoundTrip(n);
    if n < 10 {
      DecimalLeadingZero(NatToDecimal(n));
    }
  }

  /** Shape of the result for a non-negative duration: a minutes field of at least two
      digits that holds all the whole minutes (never capped), a colon, and exactly two
      digits of seconds from 00 to 59. */
  lemma MinutesSecondsFields(ms: int)
    requires ms >= 0
    ensures var r := MillisecondsToMinutesSeconds(ms);
      var minutes := r[..|r| - 3];
      var seconds := r[|r| - 2..];
      |r| >= 5 && r[|r| - 3] == ':' &&
      AllDigits(minutes) && |minutes| >= 2 && DecimalValue(minutes) == ms / 60000 &&
      (ms / 60000 >= 10 ==> minutes == NatToDecimal(ms / 60000)) &&
      AllDigits(seconds) && DecimalValue(seconds) == ms / 1000 % 60
  {
  }

  /** Two durations within the same whole second render identically. */
  lemma SameSecondSameString(a: int, b: int)
    requires TruncDiv(a, 1000) == TruncDiv(b, 1000)
    ensures MillisecondsToMinutesSeconds(a) == MillisecondsToMinutesSeconds(b)
  {
  }

  /** For non-negative durations the rendering tells whole seconds apart exactly. */
  lemma MinutesSecondsInjective(a: int, b: int)
    requires a >= 0 && b >= 0
    ensures MillisecondsToMinutesSeconds(a) == MillisecondsToMinutesSeconds(b) <==> a / 1000 == b / 1000
  {
  }

  /** Examples: 100 minutes keep all three digits; the remainder below a second is dropped. */
  lemma MinutesSecondsExamples()
    ensures MillisecondsToMinutesSeconds(6000000) == "100:00"
    ensures MillisecondsToMinutesSeconds(61999) == "01:01"
  {
  }

  /** A negative duration: int(-1.5) is -1, int(-1 / 60) is 0 and -1 % 60 is 59. */
  lemma NegativeDurationExample()
    ensures MillisecondsToMinutesSeconds(-1500) == "00:59"
  {
  }
}
