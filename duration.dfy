/** The countdown text of the agent: a number of milliseconds rendered as
    hours, minutes and whole seconds (`formatRemainingTime`). */
module Duration {
  import opened Js

  /** A duration broken down into hours, minutes and seconds. */
  datatype Hms = Hms(hours: nat, minutes: nat, seconds: nat)

  /** The whole seconds an `Hms` stands for. */
  function TotalSeconds(d: Hms): nat {
    d.hours * 3600 + d.minutes * 60 + d.seconds
  }

  /** The breakdown `formatRemainingTime` computes: nothing left for a
      non-positive duration, otherwise floor division of the whole seconds
      into hours, the minutes within the hour and the seconds within the minute. */
  function Split(ms: int): (r: Hms)
    ensures ms <= 0 ==> r == Hms(0, 0, 0)
    ensures ms > 0 ==> TotalSeconds(r) == ms / 1000
    ensures r.minutes < 60 && r.seconds < 60
  {
    if ms <= 0 then Hms(0, 0, 0)
    else
      var total := ms / 1000;
      var hours := total / 3600;
      var minutes := (total % 3600) / 60;
      var seconds := total % 60;
      assert total == hours * 3600 + total % 3600;
      assert total % 3600 == minutes * 60 + (total % 3600) % 60;
      ModOfMod(total);
      Hms(hours, minutes, seconds)
  }

  /** Taking the seconds within the hour first does not change the seconds within the minute. */
  lemma ModOfMod(t: nat)
    ensures (t % 3600) % 60 == t % 60
  {
    var q := t / 3600;
    var r := t % 3600;
    assert t == q * 3600 + r;
    assert q * 3600 == (q * 60) * 60;
    assert (t - r) % 60 == 0;
  }

  /** Split is the only breakdown with minutes and seconds below 60 that adds
      up to the whole seconds of a positive duration. */
  lemma SplitUnique(ms: int, d: Hms)
    requires ms > 0
    requires d.minutes < 60 && d.seconds < 60
    requires TotalSeconds(d) == ms / 1000
    ensures Split(ms) == d
  {
    var t := ms / 1000;
    var rest := d.minutes * 60 + d.seconds;
    assert 0 <= rest < 3600;
    assert t == d.hours * 3600 + rest;
    assert t / 3600 == d.hours && t % 3600 == rest;
    assert rest / 60 == d.minutes && rest % 60 == d.seconds;
    ModOfMod(t);
  }

  predicate IsDigit(c: char) {
    '0' <= c <= '9'
  }

  predicate AllDigits(s: string) {
    forall i :: 0 <= i < |s| ==> IsDigit(s[i])
  }

  function DigitChar(d: nat): (c: char)
    requires d < 10
    ensures IsDigit(c)
  {
    ('0' as int + d) as char
  }

  /** The decimal text JavaScript gives a non-negative integer in a template
      literal: at least one digit, no leading zero. */
  function Decimal(n: nat): (r: string)
    ensures |r| >= 1 && AllDigits(r)
    ensures r[0] == '0' ==> n == 0
    decreases n
  {
    if n < 10 then [DigitChar(n)] else Decimal(n / 10) + [DigitChar(n % 10)]
  }

  /** The number a string of decimal digits denotes. */
  function DecimalValue(s: string): nat
    requires AllDigits(s)
  {
    if |s| == 0 then 0
    else
      assert AllDigits(s[..|s| - 1]);
      DecimalValue(s[..|s| - 1]) * 10 + (s[|s| - 1] as int - '0' as int)
  }

  lemma {:induction false} DecimalRoundTrip(n: nat)
    ensures DecimalValue(Decimal(n)) == n
    decreases n
  {
    if n >= 10 {
      var d := Decimal(n);
      assert d[..|d| - 1] == Decimal(n / 10);
      DecimalRoundTrip(n / 10);
    }
  }

  /** `${hours}h ${minutes}m ${seconds}s`. */
  function Render(d: Hms): string {
    Decimal(d.hours) + "h " + Decimal(d.minutes) + "m " + Decimal(d.seconds) + "s"
  }

  /** `formatRemainingTime(ms)`: a fixed zero text for non-positive durations,
      otherwise the rendering of the breakdown. The fixed text is exactly the
      rendering of the zero breakdown. */
  function FormatRemainingTime(ms: int): (r: string)
    ensures ms <= 0 ==> r == "0h 0m 0s"
    ensures r == Render(Split(ms))
  {
    if ms <= 0 then "0h 0m 0s" else Render(Split(ms))
  }

  /** The number of digits that open `s`. */
  function DigitRun(s: string): (k: nat)
    ensures k <= |s|
    ensures forall i :: 0 <= i < k ==> IsDigit(s[i])
    ensures k < |s| ==> !IsDigit(s[k])
  {
    if |s| > 0 && IsDigit(s[0]) then 1 + DigitRun(s[1..]) else 0
  }

  lemma {:induction false} DigitRunOf(d: string, rest: string)
    requires AllDigits(d)
    requires rest == [] || !IsDigit(rest[0])
    ensures DigitRun(d + rest) == |d|
  {
    if |d| == 0 {
      assert d + rest == rest;
    } else {
      assert (d + rest)[1..] == d[1..] + rest;
      DigitRunOf(d[1..], rest);
    }
  }

  /** Reads a decimal number followed by `unit` off the front of `s`. */
  function TakeField(s: string, unit: string): Option<(nat, string)> {
    var k := DigitRun(s);
    if k == 0 || |s| - k < |unit| || s[k..k + |unit|] != unit then None
    else
      assert AllDigits(s[..k]);
      Some((DecimalValue(s[..k]), s[k + |unit|..]))
  }

  /** Reads a countdown text back into its breakdown; the inverse of Render. */
  function ParseRemainingTime(s: string): Option<Hms> {
    match TakeField(s, "h ")
    case None => None
    case Some((h, afterHours)) =>
      match TakeField(afterHours, "m ")
      case None => None
      case Some((m, afterMinutes)) =>
        match TakeField(afterMinutes, "s")
        case None => None
        case Some((sec, rest)) => if rest == [] then Some(Hms(h, m, sec)) else None
  }

  lemma TakeFieldOf(n: nat, unit: string, rest: string)
    requires |unit| > 0 && !IsDigit(unit[0])
    ensures TakeField(Decimal(n) + unit + rest, unit) == Some((n, rest))
  {
    var d := Decimal(n);
    var s := d + unit + rest;
    assert s == d + (unit + rest);
    DigitRunOf(d, unit + rest);
    assert s[..|d|] == d;
    assert s[|d|..|d| + |unit|] == unit;
    assert s[|d| + |unit|..] == rest;
    DecimalRoundTrip(n);
  }

  /** The countdown text determines the breakdown it was made from. */
  lemma FormatRoundTrip(ms: int)
    ensures ParseRemainingTime(FormatRemainingTime(ms)) == Some(Split(ms))
  {
    var d := Split(ms);
    var secText := Decimal(d.seconds) + "s";
    var minText := Decimal(d.minutes) + "m " + secText;
    assert FormatRemainingTime(ms) == Decimal(d.hours) + "h " + minText;
    TakeFieldOf(d.hours, "h ", minText);
    TakeFieldOf(d.minutes, "m ", secText);
    assert secText == Decimal(d.seconds) + "s" + [];
    TakeFieldOf(d.seconds, "s", []);
  }

  /** The countdown shows all zeros exactly while less than one second is left. */
  lemma ZeroTextIff(ms: int)
    ensures FormatRemainingTime(ms) == "0h 0m 0s" <==> ms < 1000
  {
    var zero := FormatRemainingTime(0);
    assert zero == "0h 0m 0s";
    if ms < 1000 {
      assert Split(ms) == Split(0);
    } else {
      assert TotalSeconds(Split(ms)) >= 1;
      FormatRoundTrip(ms);
      FormatRoundTrip(0);
      assert FormatRemainingTime(ms) != zero;
    }
  }
}
