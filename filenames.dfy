/**
 * The file-name rules around the converter: the base name without its
 * extension (`name.replace(/\.[^/.]+$/, "")`), the extension taken from
 * `name.split('.')`, and the batch filter that keeps names ending in
 * `.bcc`, `.json` or `.txt` in any letter case.
 */
module FileNames {
  import opened Wrappers

  /** The index of the last `c` in `s`, if any. */
  function LastIndexOf(s: string, c: char): (r: Option<nat>)
    ensures r.Some? ==> r.value < |s|
  {
    if s == [] then None
    else if s[|s| - 1] == c then Some(|s| - 1)
    else LastIndexOf(s[..|s| - 1], c)
  }

  /** There is a last `c` exactly when `c` occurs, and no `c` follows it. */
  lemma {:induction false} LastIndexOfSpec(s: string, c: char)
    ensures LastIndexOf(s, c).None? <==> c !in s
    ensures LastIndexOf(s, c).Some? ==> (s[LastIndexOf(s, c).value] == c
      && forall k :: LastIndexOf(s, c).value < k < |s| ==> s[k] != c)
  {
    if s != [] && s[|s| - 1] != c {
      var init := s[..|s| - 1];
      LastIndexOfSpec(init, c);
      assert s == init + [s[|s| - 1]];
    }
  }

  /**
   * The regular expression `\.[^/.]+$` matches at `i`: a dot, then one or
   * more characters that are neither `/` nor `.`, up to the end of the name.
   */
  predicate ExtensionAt(name: string, i: int) {
    0 <= i < |name| - 1 && name[i] == '.'
      && forall k :: i < k < |name| ==> name[k] != '/' && name[k] != '.'
  }

  /** The name with the text the expression matches removed. */
  function StripExtension(name: string): string {
    match LastIndexOf(name, '.')
    case None => name
    case Some(i) => if i + 1 < |name| && '/' !in name[i + 1..] then name[..i] else name
  }

  /** The expression matches at most once: only the last dot can start a match. */
  lemma ExtensionAtUnique(name: string, i: int, j: int)
    requires ExtensionAt(name, i) && ExtensionAt(name, j)
    ensures i == j
  {
  }

  /**
   * Stripping removes exactly the match: when the expression matches at `i`
   * the result is the name up to `i`, and when it matches nowhere the name
   * is returned unchanged.
   */
  lemma StripExtensionSpec(name: string)
    ensures forall i :: ExtensionAt(name, i) ==> StripExtension(name) == name[..i]
    ensures (forall i :: !ExtensionAt(name, i)) ==> StripExtension(name) == name
  {
    LastIndexOfSpec(name, '.');
    match LastIndexOf(name, '.')
    case None =>
    case Some(d) =>
      if d + 1 < |name| && '/' !in name[d + 1..] {
        assert ExtensionAt(name, d) by {
          forall k | d < k < |name| ensures name[k] != '/' && name[k] != '.' {
            assert name[d + 1..][k - d - 1] == name[k];
          }
        }
        forall i | ExtensionAt(name, i) ensures StripExtension(name) == name[..i] {
          ExtensionAtUnique(name, i, d);
        }
      } else {
        forall i | ExtensionAt(name, i) ensures false {
        }
      }
  }

  /** `s.split(c)`: the pieces between the occurrences of `c`; an empty string gives one empty piece. */
  function Split(s: string, c: char): (parts: seq<string>)
    ensures |parts| >= 1
  {
    if s == [] then [""]
    else
      var parts := Split(s[..|s| - 1], c);
      if s[|s| - 1] == c then parts + [""]
      else parts[..|parts| - 1] + [parts[|parts| - 1] + [s[|s| - 1]]]
  }

  /** The pieces joined back with `c` between them. */
  function Join(parts: seq<string>, c: char): string
    requires |parts| >= 1
  {
    if |parts| == 1 then parts[0] else Join(parts[..|parts| - 1], c) + [c] + parts[|parts| - 1]
  }

  /** Splitting a string one character longer: a separator opens a new piece, anything else extends the last one. */
  lemma SplitSnoc(init: string, last: char, c: char)
    ensures var parts := Split(init, c);
      Split(init + [last], c) ==
        if last == c then parts + [""]
        else parts[..|parts| - 1] + [parts[|parts| - 1] + [last]]
  {
    assert (init + [last])[..|init|] == init;
  }

  /** Splitting loses nothing: joining the pieces with the separator gives the string back. */
  lemma {:induction false} SplitJoin(s: string, c: char)
    ensures Join(Split(s, c), c) == s
  {
    if s != [] {
      var init, last := s[..|s| - 1], s[|s| - 1];
      var parts := Split(init, c);
      SplitJoin(init, c);
      assert s == init + [last];
      SplitSnoc(init, last, c);
      var n := |parts|;
      if last != c {
        var parts' := parts[..n - 1] + [parts[n - 1] + [last]];
        if n == 1 {
          assert Join(parts', c) == parts[0] + [last];
        } else {
          assert parts'[..n - 1] == parts[..n - 1];
          assert Join(parts', c) == Join(parts[..n - 1], c) + [c] + (parts[n - 1] + [last]);
        }
      } else {
        assert (parts + [""])[..n] == parts;
        assert Join(parts + [""], c) == Join(parts, c) + [c] + "";
      }
    }
  }

  /** No piece of a split holds the separator. */
  lemma {:induction false} SplitPieces(s: string, c: char)
    ensures forall k :: 0 <= k < |Split(s, c)| ==> c !in Split(s, c)[k]
  {
    if s != [] {
      var init, last := s[..|s| - 1], s[|s| - 1];
      var parts := Split(init, c);
      SplitPieces(init, c);
      assert s == init + [last];
      SplitSnoc(init, last, c);
      var n := |parts|;
      if last != c {
        var parts' := parts[..n - 1] + [parts[n - 1] + [last]];
        forall k | 0 <= k < n ensures c !in parts'[k] {
          if k == n - 1 {
            assert c !in parts[n - 1];
          } else {
            assert parts'[k] == parts[k];
          }
        }
      } else {
        forall k | 0 <= k < n + 1 ensures c !in (parts + [""])[k] {
          if k < n { assert (parts + [""])[k] == parts[k]; }
        }
      }
    }
  }

  /** There is more than one piece exactly when the separator occurs. */
  lemma {:induction false} SplitCount(s: string, c: char)
    ensures |Split(s, c)| > 1 <==> c in s
  {
    if s != [] {
      var init, last := s[..|s| - 1], s[|s| - 1];
      SplitCount(init, c);
      assert s == init + [last];
      assert c in s <==> c in init || last == c;
    }
  }

  /** The last piece is what follows the last occurrence of the separator, or the whole string when there is none. */
  lemma {:induction false} SplitLast(s: string, c: char)
    ensures Split(s, c)[|Split(s, c)| - 1] == AfterLast(s, c)
  {
    if s != [] {
      SplitLast(s[..|s| - 1], c);
      LastPieceSnoc(s, c);
      AfterLastSnoc(s, c);
    }
  }

  /** What follows the last `c` in `s`, or all of `s` when `c` does not occur. */
  function AfterLast(s: string, c: char): string {
    match LastIndexOf(s, c) case None => s case Some(i) => s[i + 1..]
  }

  /** The last piece of a split grows by the last character, or starts afresh after a separator. */
  lemma LastPieceSnoc(s: string, c: char)
    requires s != []
    ensures var parts, init := Split(s, c), Split(s[..|s| - 1], c);
      parts[|parts| - 1] == if s[|s| - 1] == c then "" else init[|init| - 1] + [s[|s| - 1]]
  {
  }

  /** What follows the last separator grows by the last character, or is empty when that is the separator. */
  lemma AfterLastSnoc(s: string, c: char)
    requires s != []
    ensures AfterLast(s, c) ==
      if s[|s| - 1] == c then "" else AfterLast(s[..|s| - 1], c) + [s[|s| - 1]]
  {
    if s[|s| - 1] != c {
      match LastIndexOf(s[..|s| - 1], c)
      case None =>
        assert s == s[..|s| - 1] + [s[|s| - 1]];
      case Some(i) =>
        assert s[i + 1..] == s[..|s| - 1][i + 1..] + [s[|s| - 1]];
    }
  }

  /**
   * The extension as the single-file handler takes it: the last piece of
   * `name.split('.')` when there is more than one, otherwise empty.
   */
  function Extension(name: string): string {
    var parts := Split(name, '.');
    if |parts| > 1 then parts[|parts| - 1] else ""
  }

  /** The extension is what follows the last dot, and is empty when there is no dot. */
  lemma ExtensionSpec(name: string)
    ensures '.' !in name ==> Extension(name) == ""
    ensures '.' !in Extension(name)
    ensures LastIndexOf(name, '.').Some? ==>
      Extension(name) == name[LastIndexOf(name, '.').value + 1..]
  {
    LastIndexOfSpec(name, '.');
    SplitCount(name, '.');
    SplitLast(name, '.');
    SplitPieces(name, '.');
  }

  /** When stripping removes something, the base name, a dot and the extension make up the whole name again. */
  lemma ExtensionRejoins(name: string)
    ensures StripExtension(name) != name ==>
      StripExtension(name) + "." + Extension(name) == name
  {
    ExtensionSpec(name);
    LastIndexOfSpec(name, '.');
    match LastIndexOf(name, '.')
    case None =>
    case Some(i) =>
      assert name == name[..i] + "." + name[i + 1..];
  }

  /** ASCII letters lowered, every other character unchanged. */
  function LowerChar(ch: char): char {
    if 'A' <= ch <= 'Z' then ((ch as int) - ('A' as int) + ('a' as int)) as char else ch
  }

  /** `s.toLowerCase()` restricted to ASCII letters. */
  function Lower(s: string): (r: string)
    ensures |r| == |s| && forall k :: 0 <= k < |s| ==> r[k] == LowerChar(s[k])
  {
    seq(|s|, k requires 0 <= k < |s| => LowerChar(s[k]))
  }

  predicate EndsWith(s: string, suffix: string) {
    |suffix| <= |s| && s[|s| - |suffix|..] == suffix
  }

  const SupportedSuffixes: seq<string> := [".bcc", ".json", ".txt"]

  /** The predicate the batch filter applies to each file name. */
  predicate IsSupported(name: string) {
    var lower := Lower(name);
    EndsWith(lower, ".bcc") || EndsWith(lower, ".json") || EndsWith(lower, ".txt")
  }

  /** The names the batch keeps, in their order. */
  function SupportedFiles(names: seq<string>): seq<string> {
    if names == [] then []
    else
      var init, last := names[..|names| - 1], names[|names| - 1];
      SupportedFiles(init) + (if IsSupported(last) then [last] else [])
  }

  lemma LowerSuffix(name: string, k: nat)
    requires k <= |name|
    ensures Lower(name)[|name| - k..] == Lower(name[|name| - k..])
  {
  }

  /** The last `|suffix|` characters of `name`, lowered, spell `suffix`. */
  predicate LowerTailIs(name: string, suffix: string) {
    |suffix| <= |name| && Lower(name[|name| - |suffix|..]) == suffix
  }

  /** Lowering and taking the tail commute, so the two suffix tests agree. */
  lemma LowerTail(name: string, suffix: string)
    ensures LowerTailIs(name, suffix) <==> EndsWith(Lower(name), suffix)
  {
    if |suffix| <= |name| {
      LowerSuffix(name, |suffix|);
    }
  }

  /**
   * A name is supported exactly when its last characters, lowered, are one
   * of the three suffixes: the test is a case-insensitive suffix test on the
   * name itself.
   */
  lemma IsSupportedSpec(name: string)
    ensures IsSupported(name) <==>
      exists k :: 0 <= k < |SupportedSuffixes| && LowerTailIs(name, SupportedSuffixes[k])
  {
    LowerTail(name, ".bcc");
    LowerTail(name, ".json");
    LowerTail(name, ".txt");
    assert SupportedSuffixes[0] == ".bcc" && SupportedSuffixes[1] == ".json" && SupportedSuffixes[2] == ".txt";
  }

  /**
   * The filter keeps exactly the supported names, each as often as it
   * occurs; `SupportedFilesAppend` and `SupportedFilesOne` give their order.
   */
  lemma {:induction false} SupportedFilesSpec(names: seq<string>)
    ensures forall x :: x in SupportedFiles(names) <==> x in names && IsSupported(x)
    ensures forall x :: x in names && IsSupported(x) ==>
      multiset(SupportedFiles(names))[x] == multiset(names)[x]
    ensures |SupportedFiles(names)| <= |names|
  {
    if names != [] {
      var init, last := names[..|names| - 1], names[|names| - 1];
      SupportedFilesSpec(init);
      assert names == init + [last];
    }
  }

  /** The filter keeps order: filtering a concatenation concatenates the filtered parts. */
  lemma {:induction false} SupportedFilesAppend(a: seq<string>, b: seq<string>)
    ensures SupportedFiles(a + b) == SupportedFiles(a) + SupportedFiles(b)
  {
    if b == [] {
      assert a + b == a;
    } else {
      var init, last := b[..|b| - 1], b[|b| - 1];
      SupportedFilesAppend(a, init);
      assert (a + b)[..|a + b| - 1] == a + init;
      assert (a + b)[|a + b| - 1] == last;
    }
  }

  /** A single name is kept exactly when it is supported. */
  lemma SupportedFilesOne(name: string)
    ensures SupportedFiles([name]) == if IsSupported(name) then [name] else []
  {
    assert [name][..0] == [];
  }
}
