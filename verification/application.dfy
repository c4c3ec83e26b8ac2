/**
 The command-line front end of the documentation generator (PHP class
 `Application`): reading flag values out of `argv`, normalising the paths,
 choosing between printing the usage text and generating the documentation,
 and choosing which enumerated source files are handed to the documentation
 controller.

 The controllers themselves, the usage text and the error handlers are not
 part of this model; the directory walk is an input sequence of entries.
 */
module Application {
  import opened Wrappers
  import opened PhpStrings

  const HelpFlag := "-h"
  const SourceFlag := "-s"
  const DestinationFlag := "-d"
  const UnitTestFlag := "-u"
  const CoverageFlag := "-c"
  const GuideFlag := "-g"
  const BaseFlag := "-b"

  /** Characters trimmed from both ends of every flag value (`'" '`). */
  const QuoteChars: set<char> := {'"', ' '}

  /** Characters stripped from the end of the source, destination and base
      (`'/\\'`). */
  const PathSeparators: set<char> := {'/', '\\'}

  /** PHP `array_search($x, $argv)` on a list: the position of the first
      element equal to x, or None (PHP's `false`). PHP compares loosely, but
      the flags searched for are not numeric strings, so loose equality is
      string equality here. */
  function ArraySearch(argv: seq<string>, x: string): (r: Option<nat>)
    ensures r.None? <==> x !in argv
    ensures r.Some? ==> r.value < |argv| && argv[r.value] == x
    ensures r.Some? ==> forall j :: 0 <= j < r.value ==> argv[j] != x
  {
    if |argv| == 0 then None
    else if argv[0] == x then Some(0)
    else
      match ArraySearch(argv[1..], x)
      case None => None
      case Some(k) => Some(k + 1)
  }

  /** Position k holds the first occurrence of flag, and something follows it. */
  ghost predicate FirstOccurrenceWithValue(argv: seq<string>, flag: string, k: int) {
    && 0 <= k < |argv| - 1
    && argv[k] == flag
    && forall j :: 0 <= j < k ==> argv[j] != flag
  }

  /** The value of a flag: the element right after the flag's first
      occurrence, with `"` and spaces trimmed from both ends; None (PHP's
      `null`) when the flag is missing or is the last element. */
  function FlagValue(argv: seq<string>, flag: string): (r: Option<string>)
    ensures r.Some? <==> exists k :: FirstOccurrenceWithValue(argv, flag, k)
    ensures forall k :: FirstOccurrenceWithValue(argv, flag, k) ==>
              r.Some? && IsTrimOf(r.value, argv[k + 1], QuoteChars)
  {
    match ArraySearch(argv, flag)
    case None => None
    case Some(k) =>
      if k == |argv| - 1 then None
      else
        assert FirstOccurrenceWithValue(argv, flag, k);
        Some(Trim(argv[k + 1], QuoteChars))
  }

  /** Occurrences of a flag after its first one, and anything appended after
      its value, never change what the flag is read as. */
  lemma LaterArgumentsIgnored(argv: seq<string>, rest: seq<string>, flag: string)
    requires exists j :: 0 <= j < |argv| - 1 && argv[j] == flag
    ensures FlagValue(argv + rest, flag) == FlagValue(argv, flag)
  {
    var j :| 0 <= j < |argv| - 1 && argv[j] == flag;
    var k := ArraySearch(argv, flag).value;
    assert FirstOccurrenceWithValue(argv, flag, k);
    assert FirstOccurrenceWithValue(argv + rest, flag, k);
    TrimUnique(FlagValue(argv + rest, flag).value, FlagValue(argv, flag).value, argv[k + 1], QuoteChars);
  }

  /** The paths the generator runs with, and the optional logs and guide. */
  datatype Settings = Settings(
    source: string,
    destination: string,
    base: string,
    unitTest: Option<string>,
    codeCoverage: Option<string>,
    guide: Option<string>)

  /** What a command line makes the application do. */
  datatype Invocation = PrintUsage | CreateDocumentation(settings: Settings)

  /** s does not end with `/` or `\`. */
  predicate NoTrailingSeparator(s: string) {
    |s| == 0 || s[|s| - 1] !in PathSeparators
  }

  /** The settings `createDocumentation` works with, given the already
      normalised source and destination: the log and guide values are the
      flag values as read, and the base is the `-b` value, or the destination
      when `-b` has no value, with trailing separators stripped. */
  function DocumentationSettings(argv: seq<string>, source: string, destination: string): (r: Settings)
    ensures r.source == source && r.destination == destination
    ensures r.unitTest == FlagValue(argv, UnitTestFlag)
    ensures r.codeCoverage == FlagValue(argv, CoverageFlag)
    ensures r.guide == FlagValue(argv, GuideFlag)
    ensures FlagValue(argv, BaseFlag).Some? ==>
              IsRTrimOf(r.base, FlagValue(argv, BaseFlag).value, PathSeparators)
    ensures FlagValue(argv, BaseFlag).None? ==> IsRTrimOf(r.base, destination, PathSeparators)
  {
    var base := FlagValue(argv, BaseFlag).GetOr(destination);
    Settings(
      source,
      destination,
      RTrim(base, PathSeparators),
      FlagValue(argv, UnitTestFlag),
      FlagValue(argv, CoverageFlag),
      FlagValue(argv, GuideFlag))
  }

  /** The constructor: usage is printed exactly when `-h` has a value or
      `-s` or `-d` has none; otherwise the documentation is created with the
      source and destination stripped of trailing separators. */
  function Start(argv: seq<string>): (r: Invocation)
    ensures r.PrintUsage? <==>
              FlagValue(argv, HelpFlag).Some?
              || FlagValue(argv, SourceFlag).None?
              || FlagValue(argv, DestinationFlag).None?
    ensures r.CreateDocumentation? ==>
              && IsRTrimOf(r.settings.source, FlagValue(argv, SourceFlag).value, PathSeparators)
              && IsRTrimOf(r.settings.destination, FlagValue(argv, DestinationFlag).value, PathSeparators)
    ensures r.CreateDocumentation? ==>
              && NoTrailingSeparator(r.settings.source)
              && NoTrailingSeparator(r.settings.destination)
              && NoTrailingSeparator(r.settings.base)
    ensures r.CreateDocumentation? && FlagValue(argv, BaseFlag).None? ==>
              r.settings.base == r.settings.destination
    ensures r.CreateDocumentation? && FlagValue(argv, BaseFlag).Some? ==>
              IsRTrimOf(r.settings.base, FlagValue(argv, BaseFlag).value, PathSeparators)
    ensures r.CreateDocumentation? ==>
              r.settings == DocumentationSettings(argv, r.settings.source, r.settings.destination)
  {
    var help := FlagValue(argv, HelpFlag);
    var source := FlagValue(argv, SourceFlag);
    var destination := FlagValue(argv, DestinationFlag);
    if help.Some? || source.None? || destination.None? then
      PrintUsage
    else
      var d := RTrim(destination.value, PathSeparators);
      var s := RTrim(source.value, PathSeparators);
      var r := DocumentationSettings(argv, s, d);
      assert FlagValue(argv, BaseFlag).None? ==> r.base == d by {
        if FlagValue(argv, BaseFlag).None? {
          RTrimUnique(r.base, d, d, PathSeparators);
        }
      }
      CreateDocumentation(r)
  }

  /** Paths that do not end with a separator are left alone by `rtrim`. */
  lemma CleanPathsAreFixed(st: Settings)
    requires NoTrailingSeparator(st.source)
    requires NoTrailingSeparator(st.destination)
    requires NoTrailingSeparator(st.base)
    ensures RTrim(st.source, PathSeparators) == st.source
    ensures RTrim(st.destination, PathSeparators) == st.destination
    ensures RTrim(st.base, PathSeparators) == st.base
  {
    RTrimKeepsClean(st.source, PathSeparators);
    RTrimKeepsClean(st.destination, PathSeparators);
    RTrimKeepsClean(st.base, PathSeparators);
  }

  /** Normalised settings are a fixed point: stripping trailing separators
      from any of the three paths again changes nothing. */
  lemma NormalisationIsIdempotent(argv: seq<string>)
    ensures Start(argv).CreateDocumentation? ==>
            var st := Start(argv).settings;
            && RTrim(st.source, PathSeparators) == st.source
            && RTrim(st.destination, PathSeparators) == st.destination
            && RTrim(st.base, PathSeparators) == st.base
  {
    var r := Start(argv);
    if r.CreateDocumentation? {
      CleanPathsAreFixed(r.settings);
    }
  }

  /** A `-h` that is the last argument has no value and so does not ask for
      the usage text: the outcome depends on `-s` and `-d` alone. */
  lemma TrailingHelpIgnored(argv: seq<string>)
    requires |argv| > 0 && argv[|argv| - 1] == HelpFlag
    requires forall j :: 0 <= j < |argv| - 1 ==> argv[j] != HelpFlag
    ensures Start(argv).PrintUsage? <==>
              FlagValue(argv, SourceFlag).None? || FlagValue(argv, DestinationFlag).None?
  {
  }

  /** One entry of the recursive directory walk: its path name and whether
      it is a regular file. */
  datatype SourceEntry = SourceEntry(path: string, isFile: bool)

  const PhpExtension := ".php"
  const SlashTest := "/test"
  const BackslashTest := "\\test"

  ghost predicate EndsWith(s: string, suffix: string) {
    |suffix| <= |s| && s[|s| - |suffix|..] == suffix
  }

  /** Which entries ought to be documented: files whose path ends with
      `.php` (case matters) and contains neither `/test` nor `\test` in any
      mix of case. */
  ghost predicate Qualifies(e: SourceEntry) {
    && e.isFile
    && EndsWith(e.path, PhpExtension)
    && !ContainsFolded(e.path, SlashTest)
    && !ContainsFolded(e.path, BackslashTest)
  }

  /** The extension test as written (`strlen` minus four is not negative and
      `strpos` finds `.php` from there on) holds exactly when the path ends
      with `.php`. */
  lemma ExtensionCheck(p: string)
    ensures (|p| - |PhpExtension| >= 0 && StrPos(p, PhpExtension, |p| - |PhpExtension|).Some?)
            <==> EndsWith(p, PhpExtension)
  {
    if |p| >= |PhpExtension| {
      var r := StrPos(p, PhpExtension, |p| - |PhpExtension|);
      if EndsWith(p, PhpExtension) {
        assert OccursAt(p, PhpExtension, |p| - |PhpExtension|);
      }
      if r.Some? {
        assert r.value == |p| - |PhpExtension|;
      }
    }
  }

  /** The filter in `parse`, written with the PHP calls it makes: the entry
      is a file, its path is at least as long as `.php` and `strpos` finds
      `.php` at or after the last four characters, and `stripos` finds
      neither `/test` nor `\test`. It accepts exactly the qualifying
      entries; in particular every path shorter than `.php` is rejected. */
  predicate IsDocumented(e: SourceEntry)
    ensures IsDocumented(e) <==> Qualifies(e)
    ensures |e.path| < |PhpExtension| ==> !IsDocumented(e)
  {
    ExtensionCheck(e.path);
    && e.isFile
    && |e.path| - |PhpExtension| >= 0
    && StrPos(e.path, PhpExtension, |e.path| - |PhpExtension|).Some?
    && StrIPos(e.path, SlashTest).None?
    && StrIPos(e.path, BackslashTest).None?
  }

  /** A path with `/test` or `\test` anywhere in it, in any mix of case, is
      never documented: this covers `tests` directories, but also file and
      directory names that merely begin with "test". The path is built from
      the `-s` value as it was typed, so every file is rejected when that
      value contains `/test` or `\test`; what decides is how the root is
      written, not where it lies on disk (`tests/p` or `.` inside a `tests`
      directory leaves its files documented). */
  lemma MarkedPathRejected(before: string, marker: string, after: string, isFile: bool)
    requires Lower(marker) == Lower(SlashTest) || Lower(marker) == Lower(BackslashTest)
    ensures !IsDocumented(SourceEntry(before + marker + after, isFile))
  {
    var p := before + marker + after;
    assert p[|before|..|before| + |marker|] == marker;
    if Lower(marker) == Lower(SlashTest) {
      assert FoldedAt(p, SlashTest, |before|);
    } else {
      assert FoldedAt(p, BackslashTest, |before|);
    }
  }

  /** The extension check is case-sensitive: `.PHP` files are skipped. */
  lemma ExtensionIsCaseSensitive(stem: string, isFile: bool)
    ensures !IsDocumented(SourceEntry(stem + ".PHP", isFile))
  {
    var p := stem + ".PHP";
    assert p[|p| - 4..] == ".PHP";
  }

  /** xs can be obtained from ys by deleting elements: idx lists, in
      increasing order, the positions of ys that xs keeps. */
  ghost predicate Embeds<T>(idx: seq<nat>, xs: seq<T>, ys: seq<T>) {
    && |idx| == |xs|
    && (forall k :: 0 <= k < |idx| ==> idx[k] < |ys| && ys[idx[k]] == xs[k])
    && (forall k, l :: 0 <= k < l < |idx| ==> idx[k] < idx[l])
  }

  ghost predicate IsSubsequence<T>(xs: seq<T>, ys: seq<T>) {
    exists idx :: Embeds(idx, xs, ys)
  }

  /** The loop in `parse`: the entries handed to the documentation
      controller, in the order the walk yields them. They keep the walk's
      order, every one of them qualifies, and every qualifying entry is
      handed on as often as the walk yields it. */
  method Parse(sources: seq<SourceEntry>) returns (parsed: seq<SourceEntry>)
    ensures IsSubsequence(parsed, sources)
    ensures forall k :: 0 <= k < |parsed| ==> Qualifies(parsed[k])
    ensures forall e :: Qualifies(e) ==> multiset(parsed)[e] == multiset(sources)[e]
  {
    parsed := [];
    ghost var idx: seq<nat> := [];
    for i := 0 to |sources|
      invariant Embeds(idx, parsed, sources)
      invariant forall k :: 0 <= k < |idx| ==> idx[k] < i
      invariant forall k :: 0 <= k < |parsed| ==> Qualifies(parsed[k])
      invariant forall e :: Qualifies(e) ==> multiset(parsed)[e] == multiset(sources[..i])[e]
    {
      var e := sources[i];
      assert sources[..i + 1] == sources[..i] + [e];
      assert multiset(sources[..i + 1]) == multiset(sources[..i]) + multiset{e};
      if IsDocumented(e) {
        parsed := parsed + [e];
        idx := idx + [i];
      }
    }
    assert sources[..|sources|] == sources;
  }
}
