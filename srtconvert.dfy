/**
 * The converter `convertBCCtoSRT`: resolve the entry list, sort a copy of
 * it by `from`, emit one SubRip block per entry that has text, numbered from
 * 1 without gaps, and fail when no block was emitted. Every failure is
 * reported as one error whose message carries the prefix below.
 */
module SrtConvert {
  import opened Wrappers
  import opened Decimal
  import opened TimeFormat
  import opened Bcc
  import opened EntrySort

  const ErrorPrefix: string := "BCC格式转换失败: "
  const NoEntriesMessage: string := "未找到有效的字幕条目"

  /** The message of the error the converter rethrows for an internal error with message `m`. */
  function Wrap(m: string): (r: string)
    ensures |r| == |ErrorPrefix| + |m| && r[..|ErrorPrefix|] == ErrorPrefix && r[|ErrorPrefix|..] == m
  {
    ErrorPrefix + m
  }

  /** The value the converter returns: the SubRip text and the number of blocks in it. */
  datatype Conversion = Conversion(srt: string, entryCount: nat)

  /**
   * What the converter receives: JSON text, already run through `JSON.parse`
   * (its outcome is given, a failure carrying the parser's message), or a
   * document object that the converter may change in place.
   */
  datatype Input = JsonText(parsed: Result<map<string, Property>>) | Object(doc: Document)

  /** One block of the output, before it is written out. */
  datatype Cue = Cue(index: nat, start: int, end: int, text: string)

  /** The cue numbered `n` for entry `e`, its times and text defaulted as the converter does. */
  function CueOf(n: nat, e: Entry): Cue {
    Cue(n, StartOf(e), EndOf(e), TextOf(e))
  }

  /** The index line: the block number and a newline. */
  function IndexLine(n: nat): string {
    Digits(n) + "\n"
  }

  /** The timing line: both times formatted, joined by ` --> `, and a newline. */
  function TimingLine(start: int, end: int): string {
    FormatTime(start) + " --> " + FormatTime(end) + "\n"
  }

  /** The text, verbatim, and the blank line that ends the block. */
  function TextLines(text: string): string {
    text + "\n\n"
  }

  /** The SubRip block of a cue. */
  function Block(c: Cue): string {
    IndexLine(c.index) + TimingLine(c.start, c.end) + TextLines(c.text)
  }

  /** The text of a run of cues: their blocks one after another. */
  function Render(cues: seq<Cue>): string {
    if cues == [] then "" else Render(cues[..|cues| - 1]) + Block(cues[|cues| - 1])
  }

  /** The entries that produce a block, in their order. */
  function Kept(s: seq<Entry>): seq<Entry> {
    if s == [] then []
    else Kept(s[..|s| - 1]) + (if HasText(s[|s| - 1]) then [s[|s| - 1]] else [])
  }

  /** The cues of the kept entries: the `i`-th (from 0) is numbered `i + 1`. */
  function Cues(kept: seq<Entry>): seq<Cue> {
    seq(|kept|, i requires 0 <= i < |kept| => CueOf(i + 1, kept[i]))
  }

  /** The converter as a value: the outcome for a parsed document. */
  function Convert(fields: map<string, Property>): Result<Conversion> {
    match EntryList(fields)
    case Failure(m) => Failure(Wrap(m))
    case Success(items) =>
      var kept := Kept(SortByFrom(items));
      if |kept| == 0 then Failure(Wrap(NoEntriesMessage))
      else Success(Conversion(Render(Cues(kept)), |kept|))
  }

  lemma Assoc(s: string, a: string, b: string, c: string)
    ensures s + a + b + c == s + (a + b + c)
  {
  }

  /** Numbering continues: one more kept entry adds one cue, numbered after the others. */
  lemma CuesAppend(kept: seq<Entry>, e: Entry)
    ensures Cues(kept + [e]) == Cues(kept) + [CueOf(|kept| + 1, e)]
  {
    var l, r := Cues(kept + [e]), Cues(kept) + [CueOf(|kept| + 1, e)];
    forall i | 0 <= i < |l| ensures l[i] == r[i] {
      if i < |kept| { assert (kept + [e])[i] == kept[i]; }
    }
  }

  lemma RenderAppend(cues: seq<Cue>, c: Cue)
    ensures Render(cues + [c]) == Render(cues) + Block(c)
  {
    assert (cues + [c])[..|cues|] == cues;
  }

  lemma BlockOfEntry(n: nat, e: Entry)
    ensures Block(CueOf(n, e)) == IndexLine(n) + TimingLine(StartOf(e), EndOf(e)) + TextLines(TextOf(e))
  {
  }

  /**
   * What the block of an entry holds: a numeral that reads back as its
   * number, a newline, a timestamp that reads back as the start (rounded to
   * milliseconds), ` --> `, one that reads back as the end, a newline, the
   * entry's text and a blank line.
   */
  lemma BlockReadsBack(n: nat, e: Entry)
    ensures exists idx: string, s1: string, s2: string ::
      && Block(CueOf(n, e)) == idx + "\n" + s1 + " --> " + s2 + "\n" + TextOf(e) + "\n\n"
      && AllDigits(idx) && Value(idx) == n
      && ParseTime(s1) == Some(Rounded(StartOf(e)))
      && ParseTime(s2) == Some(Rounded(EndOf(e)))
  {
    BlockText(n, e);
    ValueOfDigits(n);
    FormatTimeRoundTrip(StartOf(e));
    FormatTimeRoundTrip(EndOf(e));
    BlockWitness(Block(CueOf(n, e)), Digits(n), FormatTime(StartOf(e)), FormatTime(EndOf(e)), TextOf(e),
                 n, Rounded(StartOf(e)), Rounded(EndOf(e)));
  }

  /** The block of an entry spelled out character group by character group. */
  lemma BlockText(n: nat, e: Entry)
    ensures Block(CueOf(n, e)) ==
      Digits(n) + "\n" + FormatTime(StartOf(e)) + " --> " + FormatTime(EndOf(e)) + "\n" + TextOf(e) + "\n\n"
  {
    BlockOfEntry(n, e);
    LinesJoin(Digits(n), FormatTime(StartOf(e)), FormatTime(EndOf(e)), TextOf(e));
  }

  /** The three lines of a block joined into one string. */
  lemma LinesJoin(idx: string, s1: string, s2: string, txt: string)
    ensures (idx + "\n") + (s1 + " --> " + s2 + "\n") + (txt + "\n\n") ==
      idx + "\n" + s1 + " --> " + s2 + "\n" + txt + "\n\n"
  {
  }

  /** Packs the parts of a block into the statement of `BlockReadsBack`; the parts reach it as plain values. */
  lemma BlockWitness(b: string, idx: string, s1: string, s2: string, txt: string, n: nat, r1: int, r2: int)
    requires b == idx + "\n" + s1 + " --> " + s2 + "\n" + txt + "\n\n"
    requires AllDigits(idx) && Value(idx) == n
    requires ParseTime(s1) == Some(r1) && ParseTime(s2) == Some(r2)
    ensures exists idx: string, s1: string, s2: string ::
      && b == idx + "\n" + s1 + " --> " + s2 + "\n" + txt + "\n\n"
      && AllDigits(idx) && Value(idx) == n
      && ParseTime(s1) == Some(r1) && ParseTime(s2) == Some(r2)
  {
  }

  /** The emission loop: walks the sorted entries, skips those without text, numbers the rest. */
  method Serialize(sorted: seq<Entry>) returns (srt: string, entryCount: nat)
    ensures entryCount == |Kept(sorted)|
    ensures srt == Render(Cues(Kept(sorted)))
  {
    srt, entryCount := "", 0;
    var i := 0;
    while i < |sorted|
      invariant 0 <= i <= |sorted|
      invariant entryCount == |Kept(sorted[..i])|
      invariant srt == Render(Cues(Kept(sorted[..i])))
    {
      var entry := sorted[i];
      assert sorted[..i + 1][..i] == sorted[..i];
      if !HasText(entry) {
        assert Kept(sorted[..i + 1]) == Kept(sorted[..i]);
        i := i + 1;
        continue;
      }
      var startTime := StartOf(entry);
      var endTime := EndOf(entry);
      var content := TextOf(entry);
      ghost var kept := Kept(sorted[..i]);
      assert Kept(sorted[..i + 1]) == kept + [entry];
      CuesAppend(kept, entry);
      RenderAppend(Cues(kept), CueOf(entryCount + 1, entry));
      BlockOfEntry(entryCount + 1, entry);
      ghost var before := srt;
      srt := srt + IndexLine(entryCount + 1);
      srt := srt + TimingLine(startTime, endTime);
      srt := srt + TextLines(content);
      Assoc(before, IndexLine(entryCount + 1), TimingLine(startTime, endTime), TextLines(content));
      assert srt == before + Block(CueOf(entryCount + 1, entry));
      assert Cues(Kept(sorted[..i + 1])) == Cues(kept) + [CueOf(entryCount + 1, entry)];
      assert srt == Render(Cues(Kept(sorted[..i + 1])));
      entryCount := entryCount + 1;
      i := i + 1;
    }
    assert sorted[..i] == sorted;
  }

  lemma KeptSnoc(t: seq<Entry>, y: Entry)
    ensures Kept(t + [y]) == Kept(t) + (if HasText(y) then [y] else [])
  {
    assert (t + [y])[..|t|] == t;
  }

  /** The kept entries are exactly the entries with text. */
  lemma {:induction false} KeptMembers(s: seq<Entry>)
    ensures forall e :: e in Kept(s) <==> e in s && HasText(e)
  {
    if s != [] {
      var init, last := s[..|s| - 1], s[|s| - 1];
      KeptMembers(init);
      assert s == init + [last];
    }
  }

  lemma {:induction false} KeptInsert(s: seq<Entry>, x: Entry)
    ensures multiset(Kept(Insert(s, x))) ==
      multiset(Kept(s)) + (if HasText(x) then multiset{x} else multiset{})
  {
    if s == [] {
      KeptSnoc([], x);
      assert [x] == [] + [x];
    } else {
      var init, last := s[..|s| - 1], s[|s| - 1];
      assert s == init + [last];
      KeptSnoc(init, last);
      if After(last, x) {
        KeptInsert(init, x);
        KeptSnoc(Insert(init, x), last);
      } else {
        KeptSnoc(s, x);
      }
    }
  }

  /** Sorting does not change which entries produce a block, only their order. */
  lemma {:induction false} KeptAfterSort(s: seq<Entry>)
    ensures multiset(Kept(SortByFrom(s))) == multiset(Kept(s))
  {
    if s != [] {
      var init, last := s[..|s| - 1], s[|s| - 1];
      assert s == init + [last];
      KeptAfterSort(init);
      KeptInsert(SortByFrom(init), last);
      KeptSnoc(init, last);
    }
  }

  /** Dropping the entries without text keeps a sorted sequence sorted. */
  lemma {:induction false} KeptSorted(s: seq<Entry>)
    requires Sorted(s)
    ensures Sorted(Kept(s))
  {
    if s != [] {
      var init, last := s[..|s| - 1], s[|s| - 1];
      assert s == init + [last];
      assert Sorted(init);
      KeptSorted(init);
      KeptSnoc(init, last);
      if HasText(last) {
        LastIsGreatest(init, last);
        KeptMembers(init);
        AppendSorted(Kept(init), last);
      }
    }
  }

  /**
   * The outcome of a conversion: the structural error when no key holds an
   * array, the empty-result error when no entry has text, and otherwise
   * success with one block per entry that has text; every error message
   * carries the prefix.
   */
  lemma ConvertOutcome(fields: map<string, Property>)
    ensures EntryList(fields).Failure? ==> Convert(fields) == Failure(Wrap(NoEntryListMessage))
    ensures EntryList(fields).Success? && Kept(EntryList(fields).value) == [] ==>
      Convert(fields) == Failure(Wrap(NoEntriesMessage))
    ensures EntryList(fields).Success? && Kept(EntryList(fields).value) != [] ==>
      Convert(fields).Success? && Convert(fields).value.entryCount == |Kept(EntryList(fields).value)|
    ensures Convert(fields).Success? ==> Convert(fields).value.entryCount >= 1
  {
    if EntryList(fields).Success? {
      var items := EntryList(fields).value;
      KeptAfterSort(items);
      assert |multiset(Kept(SortByFrom(items)))| == |multiset(Kept(items))|;
    }
  }

  /**
   * What a successful conversion emits: the blocks of the cues of the
   * sorted entries that have text, as many as the document has entries with
   * text, counted with multiplicity.
   */
  lemma ConvertEmits(fields: map<string, Property>)
    requires Convert(fields).Success?
    ensures EntryList(fields).Success?
    ensures var kept := Kept(SortByFrom(EntryList(fields).value));
      && Convert(fields).value.srt == Render(Cues(kept))
      && Convert(fields).value.entryCount == |kept|
      && multiset(kept) == multiset(Kept(EntryList(fields).value))
  {
    KeptAfterSort(EntryList(fields).value);
  }

  /**
   * The cues of the kept entries are numbered 1 to their count with no gap,
   * and each carries the nonempty text, `content` before `text`, of its entry.
   */
  lemma CuesOfKept(s: seq<Entry>)
    ensures var kept := Kept(s); var cues := Cues(kept);
      && |cues| == |kept|
      && forall i :: 0 <= i < |cues| ==>
        && cues[i].index == i + 1
        && HasText(kept[i]) && cues[i].text == TextOf(kept[i]) != ""
  {
    var kept := Kept(s);
    KeptMembers(s);
    forall i | 0 <= i < |kept| ensures HasText(kept[i]) {
      assert kept[i] in kept;
    }
  }

  /** In a sorted sequence whose entries all have `from`, start times ascend. */
  lemma SortedStartsAscend(s: seq<Entry>)
    requires Sorted(s) && AllTimed(s)
    ensures forall i, j :: 0 <= i < j < |s| ==> StartOf(s[i]) <= StartOf(s[j])
  {
    forall i, j | 0 <= i < j < |s| ensures StartOf(s[i]) <= StartOf(s[j]) {
      assert !After(s[i], s[j]);
    }
  }

  /**
   * When every entry has `from`, the blocks come out in ascending order of
   * their start times.
   */
  lemma EmittedInOrder(items: seq<Entry>)
    requires AllTimed(items)
    ensures var cues := Cues(Kept(SortByFrom(items)));
      forall i, j :: 0 <= i < j < |cues| ==> cues[i].start <= cues[j].start
  {
    var sorted := SortByFrom(items);
    SortSorts(items);
    KeptSorted(sorted);
    var kept := Kept(sorted);
    assert AllTimed(kept) by {
      KeptMembers(sorted);
      forall i | 0 <= i < |kept| ensures kept[i].from.Some? {
        assert kept[i] in sorted;
      }
    }
    SortedStartsAscend(kept);
  }

  /**
   * `convertBCCtoSRT`. A document given as an object has its `body`
   * overwritten by the entry list found under a fallback key.
   */
  method ConvertBccToSrt(input: Input) returns (r: Result<Conversion>)
    modifies if input.Object? then {input.doc} else {}
    ensures input.JsonText? && input.parsed.Failure? ==> r == Failure(Wrap(input.parsed.error))
    ensures input.JsonText? && input.parsed.Success? ==> r == Convert(input.parsed.value)
    ensures input.Object? ==> r == Convert(old(input.doc.fields))
    ensures input.Object? ==> input.doc.fields == WithBody(old(input.doc.fields))
  {
    var doc: Document;
    if input.JsonText? {
      if input.parsed.Failure? {
        return Failure(Wrap(input.parsed.error));
      }
      doc := new Document(input.parsed.value);
    } else {
      doc := input.doc;
    }
    var list := doc.ResolveBody();
    if list.Failure? {
      return Failure(Wrap(list.error));
    }
    var sortedBody := SortByFrom(list.value);
    var srt, entryCount := Serialize(sortedBody);
    if entryCount == 0 {
      return Failure(Wrap(NoEntriesMessage));
    }
    r := Success(Conversion(srt, entryCount));
  }
}
