# BCC to SRT subtitle conversion, modelled in Dafny

This project models the converter at the centre of JianxingSCT, a browser tool that turns
BCC subtitle files (JSON documents whose entries carry times in fractional seconds) into SubRip
(`.srt`) text. It also models the file-name rules around the converter.

- `wrappers.dfy` (`Wrappers`): `Option` and `Result`.
- `decimal.dfy` (`Decimal`): how a non-negative integer is written in decimal and zero-padded on
  the left, and how such a numeral is read back.
- `timeformat.dfy` (`TimeFormat`): the timestamp formatter nested in the converter. A time becomes
  `HH:MM:SS,mmm`, with a `-` in front when it is negative. Times are exact decimals with four
  fractional digits of a second, held as an integer count of tenths of a millisecond ("ticks").
  The module has two formatters. `FormatTimeAsWritten` follows the source. `FormatTime` is the
  corrected one that the rest of the model uses (see "## Findings").
- `bcc.dfy` (`Bcc`): the parsed document and its entries. Every entry property (`from`, `start`,
  `to`, `end`, `content`, `text`) may be absent. The module holds the rules that default an entry's
  times and text. It also finds the entry list under `body`, then `subtitles`, then `events`. A
  document passed in as an object is a `Document` object, and the converter writes the list it
  found back into that object's `body`.
- `entrysort.dfy` (`EntrySort`): the stable sort by `from` of a copy of the entry list.
- `srtconvert.dfy` (`SrtConvert`): the converter. `Serialize` is the emission loop. It skips entries
  without text and numbers the other blocks from 1. `ConvertBccToSrt` is the whole converter. Its
  two errors, no entry list and no entry with text, come back with the message prefixed by
  `BCC格式转换失败: `. `Convert` states the same outcome as a function.
- `filenames.dfy` (`FileNames`): removing the extension with the expression `\.[^/.]+$`, taking the
  extension as the last piece of a split on `.`, and the batch filter that keeps names ending in
  `.bcc`, `.json` or `.txt`, compared in lower case.
- `examples_srt.dfy` (`ConversionExamples`): worked values of the formatter and of whole
  conversions.

JavaScript truthiness is written out. A number is truthy when it is not 0, and a string when it is
not empty. So an explicit `end: 0` counts as missing, while an explicit `to: 0` is used.

Three points of the code's behaviour are worth stating up front:
- An entry's `end` is used only when it is truthy. An explicit `end: 0` counts as absent, and the
  block then ends three seconds after its start (`Bcc.ZeroEndIsMissing`).
- The code's formatter rounds the fraction of a second on its own, so a rounded `1000` does not
  carry into the seconds. The model keeps that formatter as written and uses a corrected one that
  rounds the whole time before splitting it (see "## Findings" and `SrtConvert.TimingLine` under
  "## Left out").
- Errors are thrown as `Error` objects carrying message strings, and the model returns those
  strings.

## Model

| member | source | states |
|---|---|---|
| Decimal.DigitsSpec | script.js:181 | `toString` of a non-negative integer gives at least one character, all of them digits, and no leading zero from 10 upwards |
| Decimal.PadStartSpec | script.js:181 | `padStart(w, '0')` never truncates: the result is `max(w, length)` long, ends with the input and starts with zeros only |
| Decimal.ValueOfDigits | script.js:181 | reading back the decimal numeral of `n` gives `n` |
| Decimal.PaddedValue | script.js:181 | zero padding does not change the value a numeral reads back as |
| TimeFormat.FieldsDecompose | script.js:175-178 | hours, minutes, seconds and milliseconds: minutes and seconds below 60, milliseconds below 1000, and they recombine to the time |
| TimeFormat.UnsignedLayout | script.js:181 | the layout starts with a digit, is at least twelve characters long and exactly twelve below 100 hours, and has `:`, `:` and `,` at ten, seven and four characters from its end, so the minute and second groups take two characters and the millisecond group three; `LayoutParses` gives that every group is digits |
| TimeFormat.LayoutParses | script.js:175-181 | reading the layout of a non-negative time back, after any prefix, gives the time: every group reads as its field |
| TimeFormat.FormatTimeSign | script.js:170-182 | the output starts with `-` exactly when the time is negative |
| TimeFormat.FormatTimeRoundTrip | script.js:170-182 | parsing the formatted time gives back the time rounded to milliseconds, negative times included |
| TimeFormat.RoundedWithinHalfMilli | script.js:173-178 | rounding moves a time by at most half a millisecond and keeps its sign; a tie of exactly half a millisecond goes away from zero, since `Math.round` takes the magnitude's half up |
| TimeFormat.FormatTimeWidth | script.js:181 | a time that rounds to below 100 hours takes exactly 12 characters, or 13 when it is negative |
| TimeFormat.FormatTimeNegative | script.js:172-181 | a negative time is written as `-` followed by the timestamp of its magnitude |
| TimeFormat.UnsignedLeadingDigit | script.js:180 | from 10 hours up the hours group is the bare numeral, so the timestamp does not start with `0` |
| TimeFormat.AsWrittenAgrees | script.js:175-178 | when the fraction of a second is below 0.9995 s, the source's formatter gives the same text as the corrected one |
| TimeFormat.AsWrittenCarryBreaks | script.js:178 | when the fraction of a second is 0.9995 s or more (in exact decimals), the source's output does not parse as a timestamp |
| Bcc.TextOf | script.js:187 | the text is nonempty exactly when the entry has text; a nonempty `content` wins, and `text` is used only when `content` is missing or empty |
| Bcc.TimeDefaults | script.js:185-186 | start is `from` whenever present (even 0), else a truthy `start`, else 0; end is `to` whenever present, else a truthy `end`, else start + 3 s |
| Bcc.ZeroEndIsMissing | script.js:186 | `end: 0` with no `to` behaves as if `end` were absent |
| Bcc.FirstArray | script.js:145-154 | no key holds an array exactly when nothing is found; otherwise the result is the items at the first key that holds an array |
| Bcc.EntryListPriority | script.js:145-154 | the entry list is `body` if that is an array, else `subtitles`, else `events`, else the error `无效的BCC格式：找不到字幕内容数组`; an empty array counts |
| Bcc.WithBody | script.js:145-154 | after the lookup, `body` holds the list found, every other key is unchanged and no other key is added; on the error the document is unchanged |
| Bcc.Document.ResolveBody | script.js:145-154 | returns the entry list or the error, and leaves the document as `WithBody` of its old state |
| EntrySort.SortPermutes | script.js:157 | the sorted copy is a permutation of the list |
| EntrySort.SortSorts | script.js:157 | when every entry has `from`, the copy is in ascending order of `from` |
| EntrySort.SortStable | script.js:157 | for each value of `from` (or its absence), the entries with it keep their relative order |
| SrtConvert.Wrap | script.js:210 | the rethrown message is `BCC格式转换失败: ` followed by the original message |
| SrtConvert.CuesAppend | script.js:195-199 | one more kept entry adds one cue, numbered one past the ones before it |
| SrtConvert.BlockReadsBack | script.js:195-197 | an entry's block is a numeral that reads back as its number, a newline, a timestamp that reads back as the defaulted start, ` --> `, one that reads back as the defaulted end, a newline, its text and a blank line |
| SrtConvert.Serialize | script.js:160-200 | the loop's text is the blocks of the entries with text, in order, numbered 1 up; its count is the number of those entries |
| SrtConvert.KeptMembers | script.js:165-167 | an entry is emitted exactly when it is in the list and has text |
| SrtConvert.KeptAfterSort | script.js:157-167 | sorting first does not change which entries are emitted, counted with multiplicity |
| SrtConvert.KeptSorted | script.js:160-167 | skipping entries keeps a sorted sequence sorted |
| SrtConvert.ConvertOutcome | script.js:203-211 | no entry list gives the wrapped lookup error; a list with no text gives the wrapped `未找到有效的字幕条目`; otherwise success with a count of at least 1 |
| SrtConvert.ConvertEmits | script.js:157-206 | on success, the text is the blocks of the sorted entries with text, and the count is their number, the same multiset as the unsorted list's entries with text |
| SrtConvert.CuesOfKept | script.js:195-199 | the blocks are numbered 1 to their count without gaps, and each carries its entry's nonempty text |
| SrtConvert.EmittedInOrder | script.js:157-196 | when every entry has `from`, the blocks come out in ascending order of start time |
| SrtConvert.ConvertBccToSrt | script.js:133-212 | text that failed to parse gives the wrapped parse error; otherwise the outcome is `Convert` of the document, and a document passed as an object ends up as `WithBody` of its old state |
| FileNames.ExtensionAtUnique | script.js:74 | the extension expression matches at one position at most |
| FileNames.StripExtensionSpec | script.js:74 | when the expression matches, the result is the name up to the match; when it does not, the name is unchanged |
| FileNames.SplitJoin | script.js:59 | joining the pieces of a split with the separator gives the string back |
| FileNames.SplitPieces | script.js:59 | no piece of a split contains the separator |
| FileNames.SplitCount | script.js:59-60 | a split gives more than one piece exactly when the separator occurs |
| FileNames.SplitLast | script.js:59-60 | the last piece of a split is what follows the last occurrence of the separator, or the whole string when it does not occur |
| FileNames.ExtensionSpec | script.js:59-60 | no dot gives the empty extension; otherwise the extension is what follows the last dot, and it never holds a dot |
| FileNames.ExtensionRejoins | script.js:59-74 | when stripping removes something, the stripped name, a dot and the extension make up the name |
| FileNames.IsSupportedSpec | script.js:105-108 | a name is kept exactly when its last characters, lower-cased, spell one of `.bcc`, `.json`, `.txt`: a case-insensitive suffix test on the name itself |
| FileNames.SupportedFilesSpec | script.js:104-109 | the filter keeps exactly the supported names, each as often as it occurs, and never adds any |
| FileNames.SupportedFilesAppend | script.js:104-109 | the filter keeps order: filtering a concatenation gives the filtered parts one after the other |
| FileNames.SupportedFilesOne | script.js:105-108 | a single name is kept exactly when it is supported; with `SupportedFilesAppend` this fixes the filter's output as the supported names in their order |
| ConversionExamples.FormatExamples | script.js:170-182 | 0, 0.5, 1, 2, 10 and 13 s format as `00:00:00,000` … `00:00:13,000`; -1.5 s as `-00:00:01,500` |
| ConversionExamples.CarryExample | script.js:178 | 59.9996 s: the source gives `00:00:59,1000`, which does not parse; the corrected formatter gives `00:01:00,000` |
| ConversionExamples.OutOfOrderExample | script.js:157-199 | two entries under `body` out of order are emitted sorted, numbered 1 and 2, with their exact text |
| ConversionExamples.EmptyTextExample | script.js:203-205 | a single `events` entry with empty `content` is the no-entries error |
| ConversionExamples.FallbackNamesExample | script.js:147-187 | an entry under `subtitles` with only `start: 10` and `text` is emitted from 10 s to 13 s |

## Left out

- `JSON.parse` is not modelled. Its outcome, a document or an error message, is an input to `ConvertBccToSrt`.
- A parsed document that is not an object (such as `null` or a number) is not modelled. The root is always a map of properties.
- Entries that are not objects are not modelled. Neither are time properties that are not numbers or text properties that are not strings (`null`, `NaN`, other types). Each property is a number or string, or is absent.
- Binary floating point is not modelled. Times are exact decimals with four fractional digits. Finer fractions, and the representation error of doubles, are outside the model.
- EntrySort.SortByFrom: when some entry has no `from`, the comparator yields `NaN`. The model then leaves such pairs in place, as an insertion sort would. JavaScript does not promise that order. So ascending order (`EntrySort.SortSorts`) is claimed only when every entry has `from`; on mixed lists, stability (`EntrySort.SortStable`) is a property of the model's insertion sort, not a promise of the source.
- SrtConvert.TimingLine: formats both times with the corrected `FormatTime`, not with the formatter as written at script.js:170-182. The two agree whenever the fraction of a second is below 0.9995 s (`TimeFormat.AsWrittenAgrees`). Above it they differ: for `from` = 59.9996 s the model emits `00:01:00,000` where the code writes `00:00:59,1000` (see "## Findings"). `Serialize`, `Convert` and `ConvertBccToSrt` inherit this.
- The skip at script.js:190-192 has no counterpart. In the model both times are always numbers, so that skip never happens, as in the source.
- FileNames.Lower: only ASCII letters are lower-cased. `toLowerCase` also maps other letters, and the filter's verdict on names containing them is not modelled.
- The single-file type check (script.js:62-71) is not modelled. It tests the browser-reported MIME type, which the model does not have, and case-sensitive suffixes. A file whose MIME type and suffix are both unsupported gets an error notification and is not loaded for conversion.
- Logging of the error (`console.error`, script.js:209) is left out.
- The user interface, file reading, downloads, ZIP packaging, the batch loop's progress reporting, and `formatFileSize` are left out. They are DOM and I/O code around the converter.

## Findings

| source | as written | input that shows it | evidently intended | confidence | as-written member | corrected member |
|---|---|---|---|---|---|---|
| script.js:178 | the milliseconds are `Math.round` of the fraction of a second, rounded apart from the seconds already truncated | 59.9996 s (in exact decimals, any time whose fraction of a second is 0.9995 s or more; with doubles the boundary case 59.9995 s already rounds to 999) gives `00:00:59,1000` | round the whole time to milliseconds before splitting it, so the carry reaches the seconds: `00:01:00,000` | high; not executed | TimeFormat.AsWrittenCarryBreaks | TimeFormat.FormatTimeRoundTrip |
