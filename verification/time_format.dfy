/** `formatTime` (app.js:144-148): whole seconds as `MM:SS`, each field
    zero-padded to at least two digits. Minutes are not capped, so past
    99 minutes the minutes field simply grows. */
module TimeFormat {
  import opened JsText

  /** `s.padStart(2, '0')`. */
  function PadStart2(s: string): (r: string)
    ensures |r| == if |s| >= 2 then |s| else 2
    ensures r[|r| - |s|..] == s
    ensures forall i :: 0 <= i < |r| - |s| ==> r[i] == '0'
  {
    if |s| >= 2 then s else if |s| == 1 then "0" + s else "00"
  }

  /** One zero-padded field of a formatted time: at least two digits,
      exactly two below 100, and reading back as `n`. */
  function Field2(n: nat): (r: string)
    ensures |r| >= 2 && AllDigits(r)
    ensures |r| == 2 <==> n < 100
    ensures DigitsValue(r) == n
  {
    DecimalLength(n);
    PadKeepsValue(n);
    PadStart2(Decimal(n))
  }

  /** Decimal text has more than two digits exactly from 100 on. */
  lemma {:induction false} DecimalLength(n: nat)
    ensures |Decimal(n)| > 2 <==> n >= 100
  {
    if n >= 10 {
      DecimalLength(n / 10);
    }
  }

  /** Padding to two digits keeps the value of a decimal text. */
  lemma PadKeepsValue(n: nat)
    ensures AllDigits(PadStart2(Decimal(n)))
    ensures DigitsValue(PadStart2(Decimal(n))) == n
  {
    DecimalRoundTrip(n);
    var d := Decimal(n);
    if |d| < 2 {
      assert PadStart2(d) == "0" + d;
      LeadingZeroValue(d);
    }
  }

  /** Euclidean split of a second count into minutes and seconds. */
  lemma MinuteSplit(sec: nat)
    ensures sec % 60 < 60 && sec == sec / 60 * 60 + sec % 60
    ensures sec < 6000 <==> sec / 60 < 100
  {
  }

  /** The shape of every formatted time: digits, a colon, two digits. */
  predicate ClockShape(r: string) {
    |r| >= 5 && r[|r| - 3] == ':' &&
    AllDigits(r[..|r| - 3]) && AllDigits(r[|r| - 2..])
  }

  /** Two padded fields joined by a colon; cutting the text three from the
      end gives the fields back. */
  function ClockText(a: string, b: string): (r: string)
    requires |a| >= 2 && AllDigits(a) && |b| == 2 && AllDigits(b)
    ensures ClockShape(r) && |r| == |a| + 3
    ensures r[..|r| - 3] == a && r[|r| - 2..] == b
  {
    var r := a + ":" + b;
    assert r[..|r| - 3] == a && r[|r| - 2..] == b;
    r
  }

  /** `formatTime(sec)`: minutes `sec / 60`, a colon, seconds `sec % 60`. */
  function FormatTime(sec: nat): (r: string)
    ensures ClockShape(r)
    ensures sec < 6000 <==> |r| == 5
  {
    MinuteSplit(sec);
    ClockText(Field2(sec / 60), Field2(sec % 60))
  }

  /** Reads back the minutes field of a formatted time. */
  function MinutesOf(r: string): nat
    requires ClockShape(r)
  {
    DigitsValue(r[..|r| - 3])
  }

  /** Reads back the seconds field of a formatted time. */
  function SecondsOf(r: string): nat
    requires ClockShape(r)
  {
    DigitsValue(r[|r| - 2..])
  }

  /** The `MM:SS` text gives back its minutes and seconds: the seconds field
      is `sec % 60` (always below 60), the minutes field `sec / 60`, and
      together they recover `sec`. */
  lemma FormatTimeRoundTrip(sec: nat)
    ensures SecondsOf(FormatTime(sec)) == sec % 60 < 60
    ensures MinutesOf(FormatTime(sec)) == sec / 60
    ensures MinutesOf(FormatTime(sec)) * 60 + SecondsOf(FormatTime(sec)) == sec
  {
    MinuteSplit(sec);
    var a, b := Field2(sec / 60), Field2(sec % 60);
    assert FormatTime(sec) == ClockText(a, b);
  }

  /** Two different instants never print the same: a history entry loses
      nothing when it keeps the second count instead of the text. */
  lemma FormatTimeInjective(a: nat, b: nat)
    requires FormatTime(a) == FormatTime(b)
    ensures a == b
  {
    FormatTimeRoundTrip(a);
    FormatTimeRoundTrip(b);
  }
}
