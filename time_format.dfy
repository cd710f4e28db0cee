/** `formatTime` from script.js over whole seconds, and a parser that reads
    its output back. */
module TimeFormat {
  import opened Wrappers
  import opened Text

  /** `formatTime(seconds)`: whole minutes, a colon, then the seconds within
      the minute padded with one leading `'0'` when below ten. Minutes do not
      roll over into hours. The minutes are exact integer division; script.js
      divides in floating point and prints the quotient with JavaScript's
      number-to-string rules, which agree with this for whole numbers of
      seconds below 2^40. */
  function FormatTime(seconds: nat): string {
    NatToString(seconds / 60) + ":" + SecondsField(seconds % 60)
  }

  /** Reads `M:SS` back into seconds: any run of minute digits, a colon, and
      exactly two second digits worth less than sixty. */
  function ParseTime(r: string): Option<nat> {
    if |r| >= 4 && r[|r| - 3] == ':' && AllDigits(r[..|r| - 3]) && AllDigits(r[|r| - 2..])
       && DecimalValue(r[|r| - 2..]) < 60
    then Some(DecimalValue(r[..|r| - 3]) * 60 + DecimalValue(r[|r| - 2..]))
    else None
  }

  /** The seconds part of `FormatTime`: `n` padded to two digits. */
  function SecondsField(n: nat): string
    requires n < 60
  {
    (if n < 10 then "0" else "") + NatToString(n)
  }

  /** The seconds part is two digits, starts with `'0'` exactly when `n` is
      below ten, and reads back as `n`. */
  lemma SecondsFieldDigits(n: nat)
    requires n < 60
    ensures var f := SecondsField(n);
      |f| == 2 && AllDigits(f) && (f[0] == '0' <==> n < 10) && DecimalValue(f) == n
  {
    var f := SecondsField(n);
    NatToStringRoundTrip(n);
    if n < 10 {
      assert f == "0" + NatToString(n);
      assert f[..1] == "0";
      assert DecimalValue(f) == DecimalValue("0") * 10 + n;
    } else {
      assert NatToString(n) == NatToString(n / 10) + [Digit(n % 10)];
    }
  }

  /** The minutes field is the full `seconds / 60` and the two characters
      after the colon are the padded `seconds % 60`. */
  lemma FormatTimeFields(seconds: nat)
    ensures var r := FormatTime(seconds);
      |r| == |NatToString(seconds / 60)| + 3 &&
      r[..|r| - 3] == NatToString(seconds / 60) &&
      r[|r| - 3] == ':' &&
      AllDigits(r[|r| - 2..]) &&
      (r[|r| - 2] == '0' <==> seconds % 60 < 10) &&
      DecimalValue(r[|r| - 2..]) == seconds % 60
  {
    var m := NatToString(seconds / 60);
    var f := SecondsField(seconds % 60);
    SecondsFieldDigits(seconds % 60);
    var r := FormatTime(seconds);
    assert r == m + ":" + f;
    assert r[|r| - 2..] == f;
    assert r[..|r| - 3] == m;
  }

  /** Parsing the output of `FormatTime` gives back the seconds. */
  lemma FormatTimeRoundTrip(seconds: nat)
    ensures ParseTime(FormatTime(seconds)) == Some(seconds)
  {
    FormatTimeFields(seconds);
    NatToStringRoundTrip(seconds / 60);
  }

  /** Distinct second counts render differently. */
  lemma FormatTimeInjective(a: nat, b: nat)
    requires FormatTime(a) == FormatTime(b)
    ensures a == b
  {
    FormatTimeRoundTrip(a);
    FormatTimeRoundTrip(b);
  }

  /** Worked values: padding below ten seconds, none above, and no hour
      rollover at one hour. */
  lemma FormatTimeExamples()
    ensures FormatTime(125) == "2:05"
    ensures FormatTime(59) == "0:59"
    ensures FormatTime(3600) == "60:00"
    ensures FormatTime(0) == "0:00"
  {
    assert NatToString(2) == "2";
    assert NatToString(5) == "5";
    assert NatToString(0) == "0";
    assert NatToString(59) == NatToString(5) + [Digit(9)] == "59";
    assert NatToString(60) == NatToString(6) + [Digit(0)] == "60";
  }
}
