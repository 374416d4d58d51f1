/**
 * Worked values: the timestamp formatter on a few times, and whole
 * conversions of small documents. Times are ticks of a tenth of a
 * millisecond, so one second is 10000.
 */
module ConversionExamples {
  import opened Wrappers
  import opened Decimal
  import opened TimeFormat
  import opened Bcc
  import opened EntrySort
  import opened SrtConvert

  lemma PadZeroTwo()
    ensures PadStart(Digits(0), 2) == "00"
  {
    assert Zeros(1) == "0";
  }

  lemma PadZeroThree()
    ensures PadStart(Digits(0), 3) == "000"
  {
    assert Zeros(2) == "00";
  }

  lemma PadOne()
    ensures PadStart(Digits(1), 2) == "01"
  {
    assert Zeros(1) == "0";
  }

  lemma PadTwo()
    ensures PadStart(Digits(2), 2) == "02"
  {
    assert Zeros(1) == "0";
  }

  lemma PadTen()
    ensures PadStart(Digits(10), 2) == "10"
  {
    assert Digits(10) == Digits(1) + [DigitChar(0)];
  }

  lemma PadThirteen()
    ensures PadStart(Digits(13), 2) == "13"
  {
    assert Digits(13) == Digits(1) + [DigitChar(3)];
  }

  lemma PadFiftyNine()
    ensures PadStart(Digits(59), 2) == "59"
  {
    assert Digits(59) == Digits(5) + [DigitChar(9)];
  }

  lemma PadFiveHundred()
    ensures PadStart(Digits(500), 3) == "500"
  {
    assert Digits(500) == Digits(50) + [DigitChar(0)];
    assert Digits(50) == Digits(5) + [DigitChar(0)];
  }

  lemma DigitsHundred()
    ensures Digits(100) == "100"
  {
    assert Digits(10) == "10";
  }

  lemma PadThousand()
    ensures PadStart(Digits(1000), 3) == "1000"
  {
    DigitsHundred();
    assert Digits(1000) == "100" + [DigitChar(0)];
  }

  lemma ZeroSplit()
    ensures Hours(0) == 0 && Minutes(0) == 0 && Seconds(0) == 0 && Millis(0) == 0
  {
  }

  lemma ZeroFields()
    ensures Unsigned(0) == "00" + ":" + "00" + ":" + "00" + "," + "000"
  {
    ZeroSplit();
    PadZeroTwo();
    PadZeroThree();
  }

  lemma ZeroLiteral()
    ensures "00" + ":" + "00" + ":" + "00" + "," + "000" == "00:00:00,000"
  {
  }

  lemma UnsignedZero()
    ensures Unsigned(0) == "00:00:00,000"
  {
    ZeroFields();
    ZeroLiteral();
  }

  lemma HalfSecondSplit()
    ensures Hours(500) == 0 && Minutes(500) == 0 && Seconds(500) == 0 && Millis(500) == 500
  {
  }

  lemma HalfSecondFields()
    ensures Unsigned(500) == "00" + ":" + "00" + ":" + "00" + "," + "500"
  {
    HalfSecondSplit();
    PadZeroTwo();
    PadFiveHundred();
  }

  lemma HalfSecondLiteral()
    ensures "00" + ":" + "00" + ":" + "00" + "," + "500" == "00:00:00,500"
  {
  }

  lemma UnsignedHalfSecond()
    ensures Unsigned(500) == "00:00:00,500"
  {
    HalfSecondFields();
    HalfSecondLiteral();
  }

  lemma OneSecondSplit()
    ensures Hours(1000) == 0 && Minutes(1000) == 0 && Seconds(1000) == 1 && Millis(1000) == 0
  {
  }

  lemma OneSecondFields()
    ensures Unsigned(1000) == "00" + ":" + "00" + ":" + "01" + "," + "000"
  {
    OneSecondSplit();
    PadZeroTwo();
    PadOne();
    PadZeroThree();
  }

  lemma OneSecondLiteral()
    ensures "00" + ":" + "00" + ":" + "01" + "," + "000" == "00:00:01,000"
  {
  }

  lemma UnsignedOneSecond()
    ensures Unsigned(1000) == "00:00:01,000"
  {
    OneSecondFields();
    OneSecondLiteral();
  }

  lemma TwoSecondsSplit()
    ensures Hours(2000) == 0 && Minutes(2000) == 0 && Seconds(2000) == 2 && Millis(2000) == 0
  {
  }

  lemma TwoSecondsFields()
    ensures Unsigned(2000) == "00" + ":" + "00" + ":" + "02" + "," + "000"
  {
    TwoSecondsSplit();
    PadZeroTwo();
    PadTwo();
    PadZeroThree();
  }

  lemma TwoSecondsLiteral()
    ensures "00" + ":" + "00" + ":" + "02" + "," + "000" == "00:00:02,000"
  {
  }

  lemma UnsignedTwoSeconds()
    ensures Unsigned(2000) == "00:00:02,000"
  {
    TwoSecondsFields();
    TwoSecondsLiteral();
  }

  lemma TenSecondsSplit()
    ensures Hours(10000) == 0 && Minutes(10000) == 0 && Seconds(10000) == 10 && Millis(10000) == 0
  {
  }

  lemma TenSecondsFields()
    ensures Unsigned(10000) == "00" + ":" + "00" + ":" + "10" + "," + "000"
  {
    TenSecondsSplit();
    PadZeroTwo();
    PadTen();
    PadZeroThree();
  }

  lemma TenSecondsLiteral()
    ensures "00" + ":" + "00" + ":" + "10" + "," + "000" == "00:00:10,000"
  {
  }

  lemma UnsignedTenSeconds()
    ensures Unsigned(10000) == "00:00:10,000"
  {
    TenSecondsFields();
    TenSecondsLiteral();
  }

  lemma ThirteenSecondsSplit()
    ensures Hours(13000) == 0 && Minutes(13000) == 0 && Seconds(13000) == 13 && Millis(13000) == 0
  {
  }

  lemma ThirteenSecondsFields()
    ensures Unsigned(13000) == "00" + ":" + "00" + ":" + "13" + "," + "000"
  {
    ThirteenSecondsSplit();
    PadZeroTwo();
    PadThirteen();
    PadZeroThree();
  }

  lemma ThirteenSecondsLiteral()
    ensures "00" + ":" + "00" + ":" + "13" + "," + "000" == "00:00:13,000"
  {
  }

  lemma UnsignedThirteenSeconds()
    ensures Unsigned(13000) == "00:00:13,000"
  {
    ThirteenSecondsFields();
    ThirteenSecondsLiteral();
  }

  lemma OneAndAHalfSecondsSplit()
    ensures Hours(1500) == 0 && Minutes(1500) == 0 && Seconds(1500) == 1 && Millis(1500) == 500
  {
  }

  lemma OneAndAHalfSecondsFields()
    ensures Unsigned(1500) == "00" + ":" + "00" + ":" + "01" + "," + "500"
  {
    OneAndAHalfSecondsSplit();
    PadZeroTwo();
    PadOne();
    PadFiveHundred();
  }

  lemma OneAndAHalfSecondsLiteral()
    ensures "00" + ":" + "00" + ":" + "01" + "," + "500" == "00:00:01,500"
  {
  }

  lemma UnsignedOneAndAHalfSeconds()
    ensures Unsigned(1500) == "00:00:01,500"
  {
    OneAndAHalfSecondsFields();
    OneAndAHalfSecondsLiteral();
  }

  lemma OneMinuteSplit()
    ensures Hours(60000) == 0 && Minutes(60000) == 1 && Seconds(60000) == 0 && Millis(60000) == 0
  {
  }

  lemma OneMinuteFields()
    ensures Unsigned(60000) == "00" + ":" + "01" + ":" + "00" + "," + "000"
  {
    OneMinuteSplit();
    PadZeroTwo();
    PadOne();
    PadZeroThree();
  }

  lemma OneMinuteLiteral()
    ensures "00" + ":" + "01" + ":" + "00" + "," + "000" == "00:01:00,000"
  {
  }

  lemma UnsignedOneMinute()
    ensures Unsigned(60000) == "00:01:00,000"
  {
    OneMinuteFields();
    OneMinuteLiteral();
  }

  lemma RoundingExamples()
    ensures RoundMillis(0) == 0
    ensures RoundMillis(5000) == 500
    ensures RoundMillis(10000) == 1000
    ensures RoundMillis(20000) == 2000
    ensures RoundMillis(100000) == 10000
    ensures RoundMillis(130000) == 13000
    ensures RoundMillis(15000) == 1500
    ensures RoundMillis(599_996) == 60000
  {
  }

  lemma MinusLiteral()
    ensures "-" + "00:00:01,500" == "-00:00:01,500"
  {
  }

  /** The formatter on a few sample times; a negative time gets a leading minus. */
  lemma FormatExamples()
    ensures FormatTime(0) == "00:00:00,000"
    ensures FormatTime(5000) == "00:00:00,500"
    ensures FormatTime(10000) == "00:00:01,000"
    ensures FormatTime(20000) == "00:00:02,000"
    ensures FormatTime(100000) == "00:00:10,000"
    ensures FormatTime(130000) == "00:00:13,000"
    ensures FormatTime(-15000) == "-00:00:01,500"
  {
    RoundingExamples();
    UnsignedZero();
    UnsignedHalfSecond();
    UnsignedOneSecond();
    UnsignedTwoSeconds();
    UnsignedTenSeconds();
    UnsignedThirteenSeconds();
    UnsignedOneAndAHalfSeconds();
    assert FormatTime(-15000) == "-" + Unsigned(1500);
    MinusLiteral();
  }

  lemma CarrySplit()
    ensures 599_996 / TicksPerHour == 0 && (599_996 % TicksPerHour) / TicksPerMinute == 0
    ensures (599_996 % TicksPerMinute) / TicksPerSecond == 59 && RoundMillis(599_996 % TicksPerSecond) == 1000
  {
  }

  lemma CarryFields()
    ensures FormatTimeAsWritten(599_996) == "00" + ":" + "00" + ":" + "59" + "," + "1000"
  {
    CarrySplit();
    PadZeroTwo();
    PadFiftyNine();
    PadThousand();
  }

  lemma CarryLiteral()
    ensures "00" + ":" + "00" + ":" + "59" + "," + "1000" == "00:00:59,1000"
  {
  }

  /**
   * 59.9996 seconds: the source writes `00:00:59,1000`, which is no
   * timestamp; rounding the whole time first gives `00:01:00,000`.
   */
  lemma CarryExample()
    ensures FormatTimeAsWritten(599_996) == "00:00:59,1000"
    ensures ParseTime(FormatTimeAsWritten(599_996)) == None
    ensures FormatTime(599_996) == "00:01:00,000"
  {
    CarryFields();
    CarryLiteral();
    AsWrittenCarryBreaks(599_996);
    RoundingExamples();
    UnsignedOneMinute();
  }

  function TimedEntry(from: int, to: int, content: string): Entry {
    Entry(Some(from), None, Some(to), None, Some(content), None)
  }

  lemma IndexLines()
    ensures IndexLine(1) == "1\n" && IndexLine(2) == "2\n"
  {
  }

  lemma TimingFirst()
    ensures TimingLine(0, 5000) == "00:00:00,000" + " --> " + "00:00:00,500" + "\n"
  {
    FormatExamples();
  }

  lemma TimingSecond()
    ensures TimingLine(10000, 20000) == "00:00:01,000" + " --> " + "00:00:02,000" + "\n"
  {
    FormatExamples();
  }

  lemma TimingFallback()
    ensures TimingLine(100000, 130000) == "00:00:10,000" + " --> " + "00:00:13,000" + "\n"
  {
    FormatExamples();
  }

  lemma BlockParts(c: Cue, index: string, timing: string, text: string)
    requires IndexLine(c.index) == index && TimingLine(c.start, c.end) == timing && TextLines(c.text) == text
    ensures Block(c) == index + timing + text
  {
  }

  lemma FirstBlock()
    ensures Block(Cue(1, 0, 5000, "b")) == "1\n" + ("00:00:00,000" + " --> " + "00:00:00,500" + "\n") + "b\n\n"
  {
    IndexLines();
    TimingFirst();
    BlockParts(Cue(1, 0, 5000, "b"), "1\n", "00:00:00,000" + " --> " + "00:00:00,500" + "\n", "b\n\n");
  }

  lemma SecondBlock()
    ensures Block(Cue(2, 10000, 20000, "a")) == "2\n" + ("00:00:01,000" + " --> " + "00:00:02,000" + "\n") + "a\n\n"
  {
    IndexLines();
    TimingSecond();
    BlockParts(Cue(2, 10000, 20000, "a"), "2\n", "00:00:01,000" + " --> " + "00:00:02,000" + "\n", "a\n\n");
  }

  lemma FirstLiteral()
    ensures "1\n" + ("00:00:00,000" + " --> " + "00:00:00,500" + "\n") + "b\n\n" == "1\n00:00:00,000 --> 00:00:00,500\nb\n\n"
  {
  }

  lemma SecondLiteral()
    ensures "2\n" + ("00:00:01,000" + " --> " + "00:00:02,000" + "\n") + "a\n\n" == "2\n00:00:01,000 --> 00:00:02,000\na\n\n"
  {
  }

  lemma JoinedLiteral()
    ensures "1\n00:00:00,000 --> 00:00:00,500\nb\n\n" + "2\n00:00:01,000 --> 00:00:02,000\na\n\n"
          == "1\n00:00:00,000 --> 00:00:00,500\nb\n\n2\n00:00:01,000 --> 00:00:02,000\na\n\n"
  {
  }

  lemma OutOfOrderSorted()
    ensures SortByFrom([TimedEntry(10000, 20000, "a"), TimedEntry(0, 5000, "b")])
         == [TimedEntry(0, 5000, "b"), TimedEntry(10000, 20000, "a")]
  {
    var a, b := TimedEntry(10000, 20000, "a"), TimedEntry(0, 5000, "b");
    assert [a, b][..1] == [a];
    assert [a][..0] == [];
    assert SortByFrom([a]) == Insert([], a) == [a];
    assert SortByFrom([a, b]) == Insert([a], b);
    assert After(a, b);
    assert Insert([a], b) == Insert([], b) + [a];
  }

  lemma OutOfOrderCues()
    ensures Cues(Kept([TimedEntry(0, 5000, "b"), TimedEntry(10000, 20000, "a")]))
         == [Cue(1, 0, 5000, "b"), Cue(2, 10000, 20000, "a")]
  {
    var a, b := TimedEntry(10000, 20000, "a"), TimedEntry(0, 5000, "b");
    assert [b, a][..1] == [b];
    assert Kept([b]) == [b] by { assert [b][..0] == []; }
    assert Kept([b, a]) == Kept([b]) + [a];
    assert CueOf(1, b) == Cue(1, 0, 5000, "b");
    assert CueOf(2, a) == Cue(2, 10000, 20000, "a");
  }

  lemma RenderOne(c: Cue)
    ensures Render([c]) == Block(c)
  {
    assert [c][..0] == [];
  }

  lemma RenderTwo(c: Cue, d: Cue)
    ensures Render([c, d]) == Block(c) + Block(d)
  {
    assert [c, d][..1] == [c];
    RenderOne(c);
  }

  /**
   * Two entries out of order under `body`: the output is sorted by start,
   * numbered 1 and 2.
   */
  lemma OutOfOrderExample()
    ensures Convert(map["body" := Array([TimedEntry(10000, 20000, "a"), TimedEntry(0, 5000, "b")])])
         == Success(Conversion("1\n00:00:00,000 --> 00:00:00,500\nb\n\n2\n00:00:01,000 --> 00:00:02,000\na\n\n", 2))
  {
    var items := [TimedEntry(10000, 20000, "a"), TimedEntry(0, 5000, "b")];
    var fields := map["body" := Array(items)];
    EntryListPriority(fields);
    OutOfOrderSorted();
    OutOfOrderCues();
    RenderTwo(Cue(1, 0, 5000, "b"), Cue(2, 10000, 20000, "a"));
    FirstBlock();
    SecondBlock();
    FirstLiteral();
    SecondLiteral();
    JoinedLiteral();
  }

  /** The only entry under `events` has empty text: nothing is emitted, and that is an error. */
  lemma EmptyTextExample()
    ensures Convert(map["events" := Array([Entry(Some(50000), None, None, None, Some(""), None)])])
         == Failure(Wrap(NoEntriesMessage))
  {
    var e := Entry(Some(50000), None, None, None, Some(""), None);
    var fields := map["events" := Array([e])];
    EntryListPriority(fields);
    assert SortByFrom([e]) == [e] by { assert [e][..0] == []; }
    assert Kept([e]) == [] by { assert [e][..0] == []; }
  }

  lemma FallbackBlock()
    ensures Block(Cue(1, 100000, 130000, "x")) == "1\n" + ("00:00:10,000" + " --> " + "00:00:13,000" + "\n") + "x\n\n"
  {
    IndexLines();
    TimingFallback();
    BlockParts(Cue(1, 100000, 130000, "x"), "1\n", "00:00:10,000" + " --> " + "00:00:13,000" + "\n", "x\n\n");
  }

  lemma FallbackLiteral()
    ensures "1\n" + ("00:00:10,000" + " --> " + "00:00:13,000" + "\n") + "x\n\n" == "1\n00:00:10,000 --> 00:00:13,000\nx\n\n"
  {
  }

  /**
   * The alternate names: an entry under `subtitles` with `start` and `text`
   * only; its end defaults to three seconds after its start.
   */
  lemma FallbackNamesExample()
    ensures Convert(map["subtitles" := Array([Entry(None, Some(100000), None, None, None, Some("x"))])])
         == Success(Conversion("1\n00:00:10,000 --> 00:00:13,000\nx\n\n", 1))
  {
    var e := Entry(None, Some(100000), None, None, None, Some("x"));
    var fields := map["subtitles" := Array([e])];
    EntryListPriority(fields);
    assert SortByFrom([e]) == [e] by { assert [e][..0] == []; }
    assert Kept([e]) == [e] by { assert [e][..0] == []; }
    assert Cues([e]) == [Cue(1, 100000, 130000, "x")];
    RenderOne(Cue(1, 100000, 130000, "x"));
    FallbackBlock();
    FallbackLiteral();
  }
}
