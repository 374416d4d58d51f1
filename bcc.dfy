/**
 * The already-parsed BCC document and its entries, the per-entry defaulting
 * rules of the converter, and the lookup of the entry list under `body`,
 * `subtitles` or `events`.
 *
 * Times are counts of ticks of a tenth of a millisecond (the document
 * holds fractional seconds; see `TimeFormat`).
 * JavaScript truthiness is written out: a number is truthy when it is not 0,
 * a string when it is not empty, an absent property never.
 */
module Bcc {
  import opened Wrappers
  import opened TimeFormat

  /** One element of the entry list; every property may be absent. */
  datatype Entry = Entry(
    from: Option<int>,
    start: Option<int>,
    to: Option<int>,
    end: Option<int>,
    content: Option<string>,
    text: Option<string>)

  /** A property of the document: an array of entries or any other value. */
  datatype Property = Array(items: seq<Entry>) | NotArray

  predicate TruthyNumber(x: Option<int>) {
    x.Some? && x.value != 0
  }

  predicate TruthyString(x: Option<string>) {
    x.Some? && x.value != ""
  }

  /** An entry the converter emits: `content` or `text` is truthy. */
  predicate HasText(e: Entry) {
    TruthyString(e.content) || TruthyString(e.text)
  }

  /** The start time: `from` whenever it is present, else a truthy `start`, else 0. */
  function StartOf(e: Entry): int {
    if e.from.Some? then e.from.value
    else if TruthyNumber(e.start) then e.start.value
    else 0
  }

  /** The end time: `to` whenever it is present, else a truthy `end`, else three seconds after the start. */
  function EndOf(e: Entry): int {
    if e.to.Some? then e.to.value
    else if TruthyNumber(e.end) then e.end.value
    else StartOf(e) + DefaultDuration
  }

  const DefaultDuration: int := 3 * TicksPerSecond

  /** The text: a nonempty `content`, else a nonempty `text`, else the empty string. */
  function TextOf(e: Entry): (r: string)
    ensures r != "" <==> HasText(e)
    ensures TruthyString(e.content) ==> r == e.content.value
    ensures !TruthyString(e.content) && TruthyString(e.text) ==> r == e.text.value
  {
    if TruthyString(e.content) then e.content.value
    else if TruthyString(e.text) then e.text.value
    else ""
  }

  /**
   * The defaulting rules for the two times: `from` wins whenever present,
   * even when it is 0; a missing or zero `start` gives 0; `to` wins whenever
   * present; a missing or zero `end` gives start plus three seconds.
   */
  lemma TimeDefaults(e: Entry)
    ensures e.from.Some? ==> StartOf(e) == e.from.value
    ensures e.from.None? && e.start.Some? ==> StartOf(e) == e.start.value
    ensures e.from.None? && e.start.None? ==> StartOf(e) == 0
    ensures e.to.Some? ==> EndOf(e) == e.to.value
    ensures e.to.None? && TruthyNumber(e.end) ==> EndOf(e) == e.end.value
    ensures e.to.None? && !TruthyNumber(e.end) ==> EndOf(e) == StartOf(e) + 3 * TicksPerSecond
  {
  }

  /** An explicit `end: 0` is treated as missing, unlike an explicit `to: 0`. */
  lemma ZeroEndIsMissing(e: Entry)
    requires e.to.None? && e.end == Some(0)
    ensures EndOf(e) == EndOf(e.(end := None)) == StartOf(e) + 3 * TicksPerSecond
  {
  }

  /** The keys the converter looks under, in priority order. */
  const EntryListKeys: seq<string> := ["body", "subtitles", "events"]

  const NoEntryListMessage: string := "无效的BCC格式：找不到字幕内容数组"

  predicate IsArrayAt(fields: map<string, Property>, key: string) {
    key in fields && fields[key].Array?
  }

  /** The items of the first key of `keys` whose value is an array. */
  function FirstArray(fields: map<string, Property>, keys: seq<string>): (r: Option<seq<Entry>>)
    ensures r.None? <==> forall i :: 0 <= i < |keys| ==> !IsArrayAt(fields, keys[i])
    ensures r.Some? ==> exists i :: (0 <= i < |keys| && IsArrayAt(fields, keys[i])
      && fields[keys[i]].items == r.value
      && forall j :: 0 <= j < i ==> !IsArrayAt(fields, keys[j]))
  {
    if keys == [] then None
    else if IsArrayAt(fields, keys[0]) then Some(fields[keys[0]].items)
    else
      var r := FirstArray(fields, keys[1..]);
      if r.Some? then
        ghost var i :| 0 <= i < |keys| - 1 && IsArrayAt(fields, keys[1..][i])
          && fields[keys[1..][i]].items == r.value
          && forall j :: 0 <= j < i ==> !IsArrayAt(fields, keys[1..][j]);
        assert IsArrayAt(fields, keys[i + 1]) && fields[keys[i + 1]].items == r.value;
        assert forall j :: 0 <= j < i + 1 ==> !IsArrayAt(fields, keys[j]) by {
          forall j | 0 <= j < i + 1 ensures !IsArrayAt(fields, keys[j]) {
            if j > 0 { assert keys[j] == keys[1..][j - 1]; }
          }
        }
        r
      else
        assert forall i :: 0 <= i < |keys| ==> !IsArrayAt(fields, keys[i]) by {
          forall i | 0 <= i < |keys| ensures !IsArrayAt(fields, keys[i]) {
            if i > 0 { assert keys[i] == keys[1..][i - 1]; }
          }
        }
        r
  }

  /** The entry list of a document, or the error the converter throws when it has none. */
  function EntryList(fields: map<string, Property>): Result<seq<Entry>> {
    match FirstArray(fields, EntryListKeys)
    case Some(items) => Success(items)
    case None => Failure(NoEntryListMessage)
  }

  /**
   * Priority of the three keys: `body` if it holds an array, otherwise
   * `subtitles`, otherwise `events`, otherwise the structural error. An empty
   * array still counts as an array.
   */
  lemma EntryListPriority(fields: map<string, Property>)
    ensures EntryList(fields) ==
      if IsArrayAt(fields, "body") then Success(fields["body"].items)
      else if IsArrayAt(fields, "subtitles") then Success(fields["subtitles"].items)
      else if IsArrayAt(fields, "events") then Success(fields["events"].items)
      else Failure(NoEntryListMessage)
  {
    var keys := EntryListKeys;
    assert keys[0] == "body" && keys[1] == "subtitles" && keys[2] == "events";
    var r := FirstArray(fields, keys);
    if r.Some? {
      var i :| 0 <= i < |keys| && IsArrayAt(fields, keys[i]) && fields[keys[i]].items == r.value
        && forall j :: 0 <= j < i ==> !IsArrayAt(fields, keys[j]);
      if i == 1 { assert !IsArrayAt(fields, keys[0]); }
      if i == 2 { assert !IsArrayAt(fields, keys[0]) && !IsArrayAt(fields, keys[1]); }
    }
  }

  /** The document after the lookup: the entry list found is stored under `body`. */
  function WithBody(fields: map<string, Property>): (r: map<string, Property>)
    ensures EntryList(fields).Failure? ==> r == fields
    ensures EntryList(fields).Success? ==>
      IsArrayAt(r, "body") && r["body"].items == EntryList(fields).value
    ensures forall k :: k in fields && k != "body" ==> k in r && r[k] == fields[k]
    ensures r.Keys == fields.Keys + (if EntryList(fields).Success? then {"body"} else {})
  {
    match EntryList(fields)
    case Success(items) => fields["body" := Array(items)]
    case Failure(_) => fields
  }

  /**
   * The parsed document. The converter writes the entry list it found under
   * another key back into `body`, so a document passed in as an object is
   * changed in place.
   */
  class Document {
    var fields: map<string, Property>

    constructor (fields: map<string, Property>)
      ensures this.fields == fields
    {
      this.fields := fields;
    }

    /**
     * Looks up the entry list; when `body` is not an array and a fallback
     * key is, that array is stored under `body`. On the error nothing changes.
     */
    method ResolveBody() returns (r: Result<seq<Entry>>)
      modifies this
      ensures r == EntryList(old(fields))
      ensures fields == WithBody(old(fields))
    {
      EntryListPriority(fields);
      if !IsArrayAt(fields, "body") {
        if IsArrayAt(fields, "subtitles") {
          fields := fields["body" := fields["subtitles"]];
        } else if IsArrayAt(fields, "events") {
          fields := fields["body" := fields["events"]];
        } else {
          return Failure(NoEntryListMessage);
        }
      }
      r := Success(fields["body"].items);
    }
  }
}
