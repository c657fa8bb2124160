/**
 * Clock times as the analyser reads and writes them (the `TimeHelper` refinements):
 * `String#to_time` reads an `HH:MM:SS` field, `Integer#to_hms` splits a number of
 * seconds into units, and `trim_video`/`to_srt` pad that unit list to three fields and
 * print it as `%02d:%02d:%02d`. Times are whole seconds after midnight.
 */
module Clock {
  import opened Wrappers
  import opened Text

  /** One `%H`, `%M` or `%S` field of strptime: one or two digits starting at `i`.
      Yields the value and the index after the field. */
  function ReadField(s: string, i: nat): (r: Option<(nat, nat)>)
    requires i <= |s|
    ensures r.Some? ==> i < r.value.1 <= i + 2 && r.value.1 <= |s| && r.value.0 < 100
  {
    var k := LeadingDigits(s[i..]);
    var w := if k < 2 then k else 2;
    if w == 0 then None
    else
      assert forall j :: 0 <= j < w ==> s[i..i + w][j] == s[i..][j];
      TwoDigitsBound(s[i..i + w]);
      Some((DigitsValue(s[i..i + w]), i + w))
  }

  lemma TwoDigitsBound(d: string)
    requires 1 <= |d| <= 2 && forall j :: 0 <= j < |d| ==> IsDigit(d[j])
    ensures DigitsValue(d) < 100
  {
    var first := d[..1];
    assert first[..0] == [] && first[0] == d[0];
    assert DigitsValue(first) == DigitValue(d[0]);
    if |d| == 2 {
      assert d[..|d| - 1] == first;
    } else {
      assert d == first;
    }
  }

  /** `String#to_time` (`Time.strptime(s, "%H:%M:%S")`) as seconds after midnight:
      hours below 24, minutes and seconds below 60, each one or two digits; text after
      the seconds is ignored as strptime ignores it. `None` is the ArgumentError. */
  function ParseClock(s: string): (r: Option<nat>)
    ensures r.Some? ==> r.value < 86400
  {
    match ReadField(s, 0)
    case None => None
    case Some((h, i)) =>
      if i < |s| && s[i] == ':' then
        match ReadField(s, i + 1)
        case None => None
        case Some((m, j)) =>
          if j < |s| && s[j] == ':' then
            match ReadField(s, j + 1)
            case None => None
            case Some((sec, _)) =>
              if h < 24 && m < 60 && sec < 60 then Some(h * 3600 + m * 60 + sec) else None
          else None
      else None
  }

  /** `%02d` of a non-negative number. */
  function Pad2(n: nat): (s: string)
    ensures forall j :: 0 <= j < |s| ==> IsDigit(s[j])
  {
    if n < 10 then ['0', DigitChar(n)] else NatToString(n)
  }

  lemma Pad2Value(n: nat)
    requires n < 100
    ensures |Pad2(n)| == 2 && DigitsValue(Pad2(n)) == n
  {
    if n >= 10 {
      NatToStringValue(n);
      assert NatToString(n) == NatToString(n / 10) + [DigitChar(n % 10)];
      assert |NatToString(n / 10)| == 1;
    } else {
      var d := Pad2(n);
      assert d[..|d| - 1] == ['0'];
      assert DigitsValue(['0']) == 10 * DigitsValue([]) + DigitValue('0');
    }
  }

  /** `"%02d:%02d:%02d" % [h, m, s]`. */
  function Format3(h: nat, m: nat, s: nat): string {
    Pad2(h) + ":" + Pad2(m) + ":" + Pad2(s)
  }

  /** A time of day written in hours, minutes and seconds reads back as the same time. */
  lemma {:induction false} ParseFormatClock(t: nat)
    requires t < 86400
    ensures ParseClock(Format3(t / 3600, t / 60 % 60, t % 60)) == Some(t)
  {
    var q := t / 60;
    assert t == 60 * q + t % 60;
    assert q == 60 * (q / 60) + q % 60;
    assert q / 60 == t / 3600;
    ParseFields(t / 3600, t / 60 % 60, t % 60);
  }

  lemma ParseFields(h: nat, m: nat, sec: nat)
    requires h < 24 && m < 60 && sec < 60
    ensures ParseClock(Format3(h, m, sec)) == Some(h * 3600 + m * 60 + sec)
  {
    var s := Format3(h, m, sec);
    Pad2Value(h); Pad2Value(m); Pad2Value(sec);
    assert |s| == 8;
    ReadTwo(s, 0, Pad2(h));
    ReadTwo(s, 3, Pad2(m));
    ReadTwo(s, 6, Pad2(sec));
  }

  lemma ReadTwo(s: string, i: nat, d: string)
    requires i + 2 <= |s| && s[i..i + 2] == d && |d| == 2
    requires forall j :: 0 <= j < 2 ==> IsDigit(d[j])
    ensures ReadField(s, i) == Some((DigitsValue(d), i + 2))
  {
    assert s[i..][0] == d[0] && s[i..][1] == d[1];
    assert LeadingDigits(s[i..]) >= 2 by {
      assert s[i..][1..][0] == d[1];
    }
  }

  // ---------------------------------------------------------------------------
  // Integer#to_hms and the three-field padding

  /** `Integer#to_hms`, delegated to the Subunit gem with the single unit
      `minutes: 60`; taken here to give minutes and seconds by division by 60. */
  function ToHms(n: nat): seq<nat> {
    [n / 60, n % 60]
  }

  function Reverse(u: seq<nat>): (r: seq<nat>)
    ensures |r| == |u|
    ensures forall k :: 0 <= k < |u| ==> r[k] == u[|u| - 1 - k]
  {
    if u == [] then [] else Reverse(u[1..]) + [u[0]]
  }

  /** `Array#take(n)`. */
  function Take(u: seq<nat>, n: nat): seq<nat> {
    if |u| <= n then u else u[..n]
  }

  /** The padding in `trim_video`: `(units.reverse + [0, 0]).take(3).reverse`. */
  function PadTrim(u: seq<nat>): seq<nat> {
    Reverse(Take(Reverse(u) + [0, 0], 3))
  }

  /** The padding in `to_srt`: `([0, 0] + units).reverse.take(3).reverse`. */
  function PadSrt(u: seq<nat>): seq<nat> {
    Reverse(Take(Reverse([0, 0] + u), 3))
  }

  /** The two spellings of the padding agree, and both keep the last three fields of
      the unit list with zeros in front: hours, minutes, seconds for a list of at most three. */
  lemma PadForms(u: seq<nat>)
    requires 1 <= |u|
    ensures PadTrim(u) == PadSrt(u)
    ensures |PadTrim(u)| == 3
    ensures |u| <= 3 ==> PadTrim(u) == seq(3 - |u|, _ => 0) + u
    ensures |u| > 3 ==> PadTrim(u) == u[|u| - 3..]
  {
    assert Reverse([0, 0] + u) == Reverse(u) + [0, 0];
    var p := PadTrim(u);
    var q := if |u| <= 3 then seq(3 - |u|, _ => 0) + u else u[|u| - 3..];
    assert |p| == 3;
    forall k | 0 <= k < 3 ensures p[k] == q[k] {
    }
  }

  /** The three fields printed for `n` seconds. */
  function HmsFields(n: nat): seq<nat> {
    PadTrim(ToHms(n))
  }

  /** The padded fields always encode `n`: hours are 0 and minutes are not reduced
      modulo 60, because the unit list never has an hours field. */
  lemma HmsFieldsValue(n: nat)
    ensures |HmsFields(n)| == 3
    ensures HmsFields(n) == [0, n / 60, n % 60]
    ensures 3600 * HmsFields(n)[0] + 60 * HmsFields(n)[1] + HmsFields(n)[2] == n
  {
    PadForms(ToHms(n));
  }

  /** `HH:MM:SS` as `trim_video` prints a number of seconds. */
  function Timestamp(n: nat): string {
    HmsFieldsValue(n);
    var f := HmsFields(n);
    Format3(f[0], f[1], f[2])
  }

  /** `HH:MM:SS,000` as `to_srt` prints a number of seconds. */
  function SrtTimestamp(n: nat): string {
    HmsFieldsValue(n);
    var f := PadSrt(ToHms(n));
    Format3(f[0], f[1], f[2]) + ",000"
  }

  /** Within the first hour a printed timestamp reads back, through `to_time`, as the
      same number of seconds; the SRT form carries the same clock text. */
  lemma {:induction false} TimestampReadsBack(n: nat)
    requires n < 3600
    ensures ParseClock(Timestamp(n)) == Some(n)
    ensures SrtTimestamp(n) == Timestamp(n) + ",000"
  {
    HmsFieldsValue(n);
    PadForms(ToHms(n));
    ParseFields(0, n / 60, n % 60);
  }

  /** Past an hour the minutes field is 60 or more: two digits that `%M` rejects, or
      three and more, where strptime finds a digit instead of the second `:`. */
  lemma TimestampPastHour(n: nat)
    requires n >= 3600
    ensures ParseClock(Timestamp(n)).None?
  {
    var m := n / 60;
    HmsFieldsValue(n);
    var s := Timestamp(n);
    assert s == Pad2(0) + ":" + Pad2(m) + ":" + Pad2(n % 60);
    Pad2Value(0);
    ReadTwo(s, 0, Pad2(0));
    assert s[2] == ':';
    if m < 100 {
      Pad2Value(m);
      ReadTwo(s, 3, Pad2(m));
    } else {
      LongMinutes(m);
      var d := Pad2(m);
      assert s[3..6] == d[..3];
      ReadTwo(s, 3, d[..2]);
      assert IsDigit(s[5]);
    }
  }

  /** A number of three or more digits. */
  lemma LongMinutes(m: nat)
    requires m >= 100
    ensures |Pad2(m)| >= 3
  {
    assert |NatToString(m / 10)| >= 2 by {
      assert NatToString(m / 10) == NatToString(m / 100) + [DigitChar(m / 10 % 10)];
    }
  }
}
