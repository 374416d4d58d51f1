/**
 * The timestamp formatter nested in the converter (`formatTime`): a time in
 * seconds becomes `HH:MM:SS,mmm`, the SubRip layout with a comma before the
 * milliseconds; a negative time is written as `-` followed by the layout of
 * its magnitude.
 *
 * Times are exact decimals with four fractional digits of a second: an `int`
 * count of ticks of a tenth of a millisecond. That is fine enough to show
 * how the milliseconds are rounded.
 */
module TimeFormat {
  import opened Wrappers
  import opened Decimal

  const MsPerHour: nat := 3_600_000
  const MsPerMinute: nat := 60_000
  const MsPerSecond: nat := 1_000

  const TicksPerSecond: nat := 10_000
  const TicksPerMilli: nat := 10
  const TicksPerMinute: nat := 600_000
  const TicksPerHour: nat := 36_000_000

  function Hours(t: nat): nat { t / MsPerHour }
  function Minutes(t: nat): nat { (t % MsPerHour) / MsPerMinute }
  function Seconds(t: nat): nat { (t % MsPerMinute) / MsPerSecond }
  function Millis(t: nat): nat { t % MsPerSecond }

  /** The milliseconds that hours, minutes, seconds and milliseconds make up. */
  function Combine(h: nat, m: nat, s: nat, ms: nat): nat {
    ((h * 60 + m) * 60 + s) * 1000 + ms
  }

  /** The layout of a non-negative time in whole milliseconds. */
  function Unsigned(t: nat): string {
    Layout(PadStart(Digits(Hours(t)), 2), PadStart(Digits(Minutes(t)), 2),
           PadStart(Digits(Seconds(t)), 2), PadStart(Digits(Millis(t)), 3))
  }

  /** The four groups joined as `hh:mm:ss,mmm`. */
  function Layout(hh: string, mm: string, ss: string, mmm: string): string {
    hh + ":" + mm + ":" + ss + "," + mmm
  }

  /** Rounds a count of ticks to the nearest millisecond, halves upwards (`Math.round`). */
  function RoundMillis(u: nat): nat {
    (u + 5) / 10
  }

  /** A time with its sign taken off. */
  function Magnitude(t: int): nat {
    if t < 0 then -t else t
  }

  /** What the formatter writes in front of the layout: `-` for a negative time. */
  function SignPrefix(t: int): string {
    if t < 0 then "-" else ""
  }

  /** The milliseconds a signed time shows: its magnitude rounded, then the sign. */
  function Rounded(t: int): int {
    if t < 0 then -(RoundMillis(Magnitude(t)) as int) else RoundMillis(Magnitude(t))
  }

  /**
   * The formatter: the sign is taken off, the magnitude is rounded to whole
   * milliseconds and then split into fields, so a fraction close to the next
   * second carries into the seconds.
   */
  function FormatTime(t: int): string {
    SignPrefix(t) + Unsigned(RoundMillis(Magnitude(t)))
  }

  /**
   * The formatter as the source writes it: hours, minutes and seconds are
   * truncated from the magnitude and the fraction of a second is rounded on
   * its own, so it can round up to 1000.
   */
  function FormatTimeAsWritten(t: int): string {
    var u: nat := if t < 0 then -t else t;
    var hours := u / TicksPerHour;
    var minutes := (u % TicksPerHour) / TicksPerMinute;
    var secs := (u % TicksPerMinute) / TicksPerSecond;
    var millis := RoundMillis(u % TicksPerSecond);
    var s := PadStart(Digits(hours), 2) + ":" + PadStart(Digits(minutes), 2) + ":" +
             PadStart(Digits(secs), 2) + "," + PadStart(Digits(millis), 3);
    if t < 0 then "-" + s else s
  }

  /**
   * Reads `H…H:MM:SS,mmm` (at least one hour digit, minutes and seconds
   * below 60), optionally preceded by `-`, back into milliseconds.
   */
  function ParseTime(s: string): Option<int> {
    if |s| > 0 && s[0] == '-' then
      match ParseFrom(s, 1)
      case Some(v) => Some(-(v as int))
      case None => None
    else
      ParseFrom(s, 0)
  }

  /** Reads the layout that fills `s` from index `i` to its end. */
  function ParseFrom(s: string, i: nat): Option<nat>
    requires i <= |s|
  {
    var n := |s|;
    if n - i >= 11 && s[n - 10] == ':' && s[n - 7] == ':' && s[n - 4] == ','
       && DigitsIn(s, i, n - 10) && DigitsIn(s, n - 9, n - 7)
       && DigitsIn(s, n - 6, n - 4) && DigitsIn(s, n - 3, n)
    then
      var h, m, sec, ms := ValueIn(s, i, n - 10), ValueIn(s, n - 9, n - 7),
                           ValueIn(s, n - 6, n - 4), ValueIn(s, n - 3, n);
      if m < 60 && sec < 60 then Some(Combine(h, m, sec, ms)) else None
    else
      None
  }

  /** Euclidean division is unique: a quotient and a remainder in range are the ones `/` and `%` give. */
  lemma DivModUnique(x: int, d: int, q: int, r: int)
    requires d > 0 && 0 <= r < d && x == d * q + r
    ensures x / d == q && x % d == r
  {
    var q', r' := x / d, x % d;
    if q != q' {
      var lo, hi := if q < q' then q else q', if q < q' then q' else q;
      var k := hi - lo;
      Distribute(d, lo, k);
      AtLeastDivisor(d, k);
    }
  }

  lemma Distribute(d: int, a: int, k: int)
    ensures d * (a + k) == d * a + d * k
  {
  }

  lemma AtLeastDivisor(d: int, k: int)
    requires d > 0 && k >= 1
    ensures d * k >= d
  {
  }

  lemma ModOfMultiple(q: nat, r: nat, d: nat)
    requires d > 0
    ensures (d * q + r) % d == r % d
  {
    DivModUnique(r, d, r / d, r % d);
    assert d * q + r == d * (q + r / d) + r % d;
    DivModUnique(d * q + r, d, q + r / d, r % d);
  }

  /**
   * The four fields are in range, and recombining them gives back the time:
   * minutes and seconds below 60, milliseconds below 1000.
   */
  lemma FieldsDecompose(t: nat)
    ensures Minutes(t) < 60 && Seconds(t) < 60 && Millis(t) < 1000
    ensures Combine(Hours(t), Minutes(t), Seconds(t), Millis(t)) == t
  {
    var h, r1 := t / MsPerHour, t % MsPerHour;
    assert t == MsPerHour * h + r1;
    var m, r2 := r1 / MsPerMinute, r1 % MsPerMinute;
    assert r1 == MsPerMinute * m + r2;
    ModOfMultiple(60 * h, r1, MsPerMinute);
    assert MsPerHour * h == MsPerMinute * (60 * h);
    assert t % MsPerMinute == r2;
    var s, ms := r2 / MsPerSecond, r2 % MsPerSecond;
    assert r2 == MsPerSecond * s + ms;
    ModOfMultiple(60 * m, r2, MsPerSecond);
    assert r2 < MsPerMinute;
    ModOfMultiple(60 * (60 * h) + m * 60, r2, MsPerSecond);
    assert t == MsPerSecond * (60 * (60 * h) + m * 60) + r2;
  }

  /**
   * A field written with `padStart(w, '0')`: at least `w` characters (exactly
   * `w` below `Pow10(w)`), starting with a digit, and read in place as the field.
   */
  lemma PaddedField(v: nat, w: nat)
    ensures var d := PadStart(Digits(v), w);
      |d| >= w && |d| >= 1 && IsDigit(d[0]) && DigitsIn(d, 0, |d|) && ValueIn(d, 0, |d|) == v
    ensures 1 <= w && v < Pow10(w) ==> |PadStart(Digits(v), w)| == w
  {
    var d := PadStart(Digits(v), w);
    PaddedValue(v, w);
    ValueInWhole(d);
    if 1 <= w && v < Pow10(w) {
      DigitsLength(v, w, Pow10(w));
    }
  }

  /** Where the separators and the characters of each group sit in `hh:mm:ss,mmm` written after a prefix `p`. */
  lemma LayoutChars(p: string, hh: string, mm: string, ss: string, mmm: string)
    requires |mm| == 2 && |ss| == 2 && |mmm| == 3
    ensures var u := p + Layout(hh, mm, ss, mmm); var n := |u|;
      && n == |p| + |hh| + 10
      && u[n - 10] == ':' && u[n - 7] == ':' && u[n - 4] == ','
      && u[|p|..n - 10] == hh && u[n - 9..n - 7] == mm && u[n - 6..n - 4] == ss && u[n - 3..n] == mmm
  {
    var u := p + Layout(hh, mm, ss, mmm);
    var n := |u|;
    assert u[|p|..n - 10] == hh;
    assert u[n - 9..n - 7] == mm;
    assert u[n - 6..n - 4] == ss;
    assert u[n - 3..n] == mmm;
  }

  /** The digit groups of `hh:mm:ss,mmm`, written after a prefix, read in place as they read alone. */
  lemma LayoutGroups(p: string, hh: string, mm: string, ss: string, mmm: string)
    requires |mm| == 2 && |ss| == 2 && |mmm| == 3
    requires DigitsIn(hh, 0, |hh|) && DigitsIn(mm, 0, 2) && DigitsIn(ss, 0, 2) && DigitsIn(mmm, 0, 3)
    ensures var u := p + Layout(hh, mm, ss, mmm); var n := |u|;
      && n == |p| + |hh| + 10
      && u[n - 10] == ':' && u[n - 7] == ':' && u[n - 4] == ','
      && DigitsIn(u, |p|, n - 10) && ValueIn(u, |p|, n - 10) == ValueIn(hh, 0, |hh|)
      && DigitsIn(u, n - 9, n - 7) && ValueIn(u, n - 9, n - 7) == ValueIn(mm, 0, 2)
      && DigitsIn(u, n - 6, n - 4) && ValueIn(u, n - 6, n - 4) == ValueIn(ss, 0, 2)
      && DigitsIn(u, n - 3, n) && ValueIn(u, n - 3, n) == ValueIn(mmm, 0, 3)
  {
    var u := p + Layout(hh, mm, ss, mmm);
    var n := |u|;
    LayoutChars(p, hh, mm, ss, mmm);
    ValueInShift(u, |p|, n - 10, hh);
    ValueInShift(u, n - 9, n - 7, mm);
    ValueInShift(u, n - 6, n - 4, ss);
    ValueInShift(u, n - 3, n, mmm);
  }

  /** Groups that read as the fields of a time, laid out after any prefix, read back as that time. */
  lemma LayoutReads(p: string, hh: string, mm: string, ss: string, mmm: string, h: nat, m: nat, sec: nat, ms: nat)
    requires |hh| >= 1 && |mm| == 2 && |ss| == 2 && |mmm| == 3
    requires DigitsIn(hh, 0, |hh|) && DigitsIn(mm, 0, 2) && DigitsIn(ss, 0, 2) && DigitsIn(mmm, 0, 3)
    requires ValueIn(hh, 0, |hh|) == h && ValueIn(mm, 0, 2) == m && ValueIn(ss, 0, 2) == sec && ValueIn(mmm, 0, 3) == ms
    requires m < 60 && sec < 60
    ensures ParseFrom(p + Layout(hh, mm, ss, mmm), |p|) == Some(Combine(h, m, sec, ms))
  {
    LayoutGroups(p, hh, mm, ss, mmm);
  }

  /** Reading the layout of a time back, after any prefix, gives the time. */
  lemma LayoutParses(p: string, t: nat)
    ensures ParseFrom(p + Unsigned(t), |p|) == Some(t)
  {
    var h, m, s, ms := Hours(t), Minutes(t), Seconds(t), Millis(t);
    FieldsDecompose(t);
    assert Pow10(2) == 100 && Pow10(3) == 1000;
    PaddedField(h, 2);
    PaddedField(m, 2);
    PaddedField(s, 2);
    PaddedField(ms, 3);
    LayoutReads(p, PadStart(Digits(h), 2), PadStart(Digits(m), 2), PadStart(Digits(s), 2), PadStart(Digits(ms), 3), h, m, s, ms);
  }

  /** The shape of `hh:mm:ss,mmm` for a nonempty hours group that starts with a digit. */
  lemma LayoutShape(hh: string, mm: string, ss: string, mmm: string)
    requires |hh| >= 1 && IsDigit(hh[0]) && |mm| == 2 && |ss| == 2 && |mmm| == 3
    ensures var u := Layout(hh, mm, ss, mmm); var n := |u|;
      && n == |hh| + 10 && IsDigit(u[0])
      && u[n - 10] == ':' && u[n - 7] == ':' && u[n - 4] == ','
  {
    var u := Layout(hh, mm, ss, mmm);
    assert u[0] == hh[0];
  }

  /**
   * The layout of a non-negative time: hours in at least two digits, then
   * `:`, two minute digits, `:`, two second digits, `,`, three millisecond
   * digits; twelve characters in all below 100 hours.
   */
  lemma UnsignedLayout(t: nat)
    ensures var u := Unsigned(t); var n := |u|;
      && n >= 12 && IsDigit(u[0])
      && u[n - 10] == ':' && u[n - 7] == ':' && u[n - 4] == ','
    ensures Hours(t) < 100 ==> |Unsigned(t)| == 12
  {
    FieldsDecompose(t);
    assert Pow10(2) == 100 && Pow10(3) == 1000;
    PaddedField(Hours(t), 2);
    PaddedField(Minutes(t), 2);
    PaddedField(Seconds(t), 2);
    PaddedField(Millis(t), 3);
    LayoutShape(PadStart(Digits(Hours(t)), 2), PadStart(Digits(Minutes(t)), 2),
                PadStart(Digits(Seconds(t)), 2), PadStart(Digits(Millis(t)), 3));
  }

  /**
   * Rounding moves a time by at most half a millisecond, and the result
   * keeps the sign of the time (zero aside). A tie goes away from zero:
   * `Math.round` takes half a millisecond of the magnitude up.
   */
  lemma RoundedWithinHalfMilli(t: int)
    ensures t >= 0 ==> t - TicksPerMilli / 2 < Rounded(t) * TicksPerMilli <= t + TicksPerMilli / 2
    ensures t < 0 ==> t - TicksPerMilli / 2 <= Rounded(t) * TicksPerMilli < t + TicksPerMilli / 2
    ensures t >= 0 ==> Rounded(t) >= 0
    ensures t < 0 ==> Rounded(t) <= 0
  {
    var u: nat := if t < 0 then -t else t;
    var q, r := (u + 5) / 10, (u + 5) % 10;
    assert u + 5 == 10 * q + r;
  }

  /** A minus in front of a layout that reads as `a` reads as `-a`. */
  lemma ParseNegated(u: string, a: nat)
    requires ParseFrom("-" + u, 1) == Some(a)
    ensures ParseTime("-" + u) == Some(-(a as int))
  {
    assert ("-" + u)[0] == '-';
  }

  /**
   * Replacing equals by equals in the negative round trip. It stands apart so
   * that the formatted text reaches it as an opaque value.
   */
  lemma NegatedText(s: string, u: string, r: int, a: nat)
    requires s == "-" + u && r == -(a as int)
    requires ParseTime("-" + u) == Some(-(a as int))
    ensures ParseTime(s) == Some(r)
  {
  }

  /** A minus followed by the layout of a time reads back as the negated time. */
  lemma NegatedLayoutParses(a: nat)
    ensures ParseTime("-" + Unsigned(a)) == Some(-(a as int))
  {
    LayoutParses("-", a);
    ParseNegated(Unsigned(a), a);
  }

  lemma RoundTripNegative(t: int)
    requires t < 0
    ensures ParseTime(FormatTime(t)) == Some(Rounded(t))
  {
    var a := RoundMillis(Magnitude(t));
    NegatedLayoutParses(a);
    NegatedText(FormatTime(t), Unsigned(a), Rounded(t), a);
  }

  lemma RoundTripNonNegative(t: int)
    requires t >= 0
    ensures ParseTime(FormatTime(t)) == Some(Rounded(t))
  {
    var a := RoundMillis(Magnitude(t));
    LayoutParses("", a);
    UnsignedLayout(a);
    assert FormatTime(t) == "" + Unsigned(a);
    assert FormatTime(t)[0] == Unsigned(a)[0];
  }

  /** The timestamp starts with `-` exactly when the time is negative. */
  lemma FormatTimeSign(t: int)
    ensures t < 0 <==> |FormatTime(t)| > 0 && FormatTime(t)[0] == '-'
  {
    var a := RoundMillis(Magnitude(t));
    if t >= 0 {
      UnsignedLayout(a);
      assert FormatTime(t) == "" + Unsigned(a);
      assert FormatTime(t)[0] == Unsigned(a)[0];
    }
  }

  /**
   * Formatting loses nothing but the rounding: parsing the timestamp gives
   * back the rounded milliseconds, negative times included.
   */
  lemma FormatTimeRoundTrip(t: int)
    ensures ParseTime(FormatTime(t)) == Some(Rounded(t))
  {
    if t < 0 {
      RoundTripNegative(t);
    } else {
      RoundTripNonNegative(t);
    }
  }

  /**
   * Zero padding: a time that rounds to below 100 hours always takes
   * exactly twelve characters (`HH:MM:SS,mmm`); a negative one thirteen.
   */
  lemma FormatTimeWidth(t: int)
    requires -100 * TicksPerHour < t - TicksPerMilli / 2 && t + TicksPerMilli / 2 < 100 * TicksPerHour
    ensures |FormatTime(t)| == if t < 0 then 13 else 12
  {
    var a := RoundMillis(Magnitude(t));
    assert a < 100 * MsPerHour;
    UnsignedLayout(a);
  }

  /** A negative time is written as `-` followed by the timestamp of its magnitude. */
  lemma FormatTimeNegative(t: int)
    ensures t < 0 ==> FormatTime(t) == "-" + FormatTime(-t)
  {
    if t < 0 {
      SignedText(t, Unsigned(RoundMillis(Magnitude(t))));
    }
  }

  /** Both signs of a negative time share one layout, with `-` in front of the negative one only. */
  lemma SignedText(t: int, u: string)
    requires t < 0 && u == Unsigned(RoundMillis(Magnitude(t)))
    ensures FormatTime(t) == "-" + u && FormatTime(-t) == u
  {
    assert Magnitude(-t) == Magnitude(t);
    assert SignPrefix(-t) + u == u;
  }

  /**
   * The hours group is padded to two digits and no further: from 10 hours
   * up it is the bare numeral, so the timestamp does not start with `0`.
   */
  lemma UnsignedLeadingDigit(t: nat)
    ensures Hours(t) >= 10 ==> Unsigned(t)[0] != '0'
  {
    var h := Hours(t);
    if h >= 10 {
      DigitsSpec(h);
      assert |Digits(h)| >= 2;
      assert PadStart(Digits(h), 2) == Digits(h);
    }
  }

  /** The field decomposition of a count of ticks, as the source takes it apart. */
  lemma TicksDecompose(u: nat)
    ensures (u % TicksPerHour) / TicksPerMinute < 60 && (u % TicksPerMinute) / TicksPerSecond < 60
    ensures u == (u / TicksPerHour) * TicksPerHour + ((u % TicksPerHour) / TicksPerMinute) * TicksPerMinute
                 + ((u % TicksPerMinute) / TicksPerSecond) * TicksPerSecond + u % TicksPerSecond
  {
    var h, r1 := u / TicksPerHour, u % TicksPerHour;
    assert u == TicksPerHour * h + r1;
    var m, r2 := r1 / TicksPerMinute, r1 % TicksPerMinute;
    assert r1 == TicksPerMinute * m + r2;
    ModOfMultiple(60 * h, r1, TicksPerMinute);
    assert TicksPerHour * h == TicksPerMinute * (60 * h);
    assert u % TicksPerMinute == r2;
    var s, f := r2 / TicksPerSecond, r2 % TicksPerSecond;
    assert r2 == TicksPerSecond * s + f;
    ModOfMultiple(60 * m, r2, TicksPerSecond);
    assert r2 < TicksPerMinute;
    ModOfMultiple(60 * (60 * h) + m * 60, r2, TicksPerSecond);
    assert u == TicksPerSecond * (60 * (60 * h) + m * 60) + r2;
  }

  /** Fields in range determine the time: they are the ones `Hours` … `Millis` read off. */
  lemma FieldsUnique(t: nat, h: nat, m: nat, s: nat, ms: nat)
    requires m < 60 && s < 60 && ms < 1000
    requires t == Combine(h, m, s, ms)
    ensures Hours(t) == h && Minutes(t) == m && Seconds(t) == s && Millis(t) == ms
  {
    DivModUnique(t, MsPerHour, h, m * MsPerMinute + s * MsPerSecond + ms);
    DivModUnique(t % MsPerHour, MsPerMinute, m, s * MsPerSecond + ms);
    DivModUnique(t, MsPerMinute, 60 * h + m, s * MsPerSecond + ms);
    DivModUnique(t % MsPerMinute, MsPerSecond, s, ms);
    DivModUnique(t, MsPerSecond, 3600 * h + 60 * m + s, ms);
  }

  /**
   * Away from the carry the two formatters agree: when the fraction of a
   * second is below 0.9995 s, rounding it alone gives the same fields as
   * rounding the whole time.
   */
  lemma AsWrittenAgrees(t: int)
    requires (if t < 0 then -t else t) % TicksPerSecond < TicksPerSecond - TicksPerMilli / 2
    ensures FormatTimeAsWritten(t) == FormatTime(t)
  {
    var u: nat := if t < 0 then -t else t;
    var h, m, s, f := u / TicksPerHour, (u % TicksPerHour) / TicksPerMinute,
                      (u % TicksPerMinute) / TicksPerSecond, u % TicksPerSecond;
    TicksDecompose(u);
    var ms := RoundMillis(f);
    var w := h * MsPerHour + m * MsPerMinute + s * MsPerSecond;
    assert u + 5 == 10 * (w + ms) + (f + 5) % 10 by {
      assert f + 5 == 10 * ms + (f + 5) % 10;
    }
    DivModUnique(u + 5, 10, w + ms, (f + 5) % 10);
    FieldsUnique(RoundMillis(u), h, m, s, ms);
  }

  /**
   * At the carry the source's output is no timestamp at all: the fraction
   * rounds to 1000 milliseconds, four digits where three belong, and the
   * text does not parse.
   */
  lemma AsWrittenCarryBreaks(t: int)
    requires (if t < 0 then -t else t) % TicksPerSecond >= TicksPerSecond - TicksPerMilli / 2
    ensures ParseTime(FormatTimeAsWritten(t)) == None
  {
    var u: nat := if t < 0 then -t else t;
    var h, m, s := u / TicksPerHour, (u % TicksPerHour) / TicksPerMinute, (u % TicksPerMinute) / TicksPerSecond;
    assert RoundMillis(u % TicksPerSecond) == 1000;
    assert Digits(1000) == "1000" by {
      assert Digits(1000) == Digits(100) + [DigitChar(0)];
      assert Digits(100) == Digits(10) + [DigitChar(0)];
      assert Digits(10) == Digits(1) + [DigitChar(0)];
    }
    var hh := PadStart(Digits(h), 2);
    PaddedValue(h, 2);
    var body := hh + ":" + PadStart(Digits(m), 2) + ":" + PadStart(Digits(s), 2) + ",";
    var w := body + "1000";
    assert FormatTimeAsWritten(t) == if t < 0 then "-" + w else w;
    if t >= 0 {
      assert w[0] == hh[0];
      assert IsDigit(hh[0]);
      assert w[|w| - 4] == '1';
    } else {
      var v := "-" + w;
      assert v[|v| - 4] == '1';
    }
  }
}
