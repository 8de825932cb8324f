/**
 * The ratio providers of addon.py: `is_local_file` (72-82), the label
 * cleaning and result selection of `KodiMetadataProvider` (86-178),
 * `FileMetadataProvider` (279-286) and `IMDbProvider` (289-300). Host calls
 * are parameters: the `VideoPlayer.VideoAspect` label, the ratio the
 * JSON-RPC stream details give, whether a path exists, and the scraper's result.
 */
module Providers {
  import opened Wrappers
  import opened Strings
  import opened Numbers
  import opened Imdb

  // ---------------------------------------------------------------------------
  // is_local_file

  /** The URL schemes `is_local_file` rejects outright. */
  predicate IsRemote(path: string) {
    || StartsWith(path, "http://") || StartsWith(path, "https://") || StartsWith(path, "smb://")
    || StartsWith(path, "nfs://") || StartsWith(path, "ftp://")
  }

  /** `is_local_file(path)`: a non-remote path that is absolute (or, on
      Windows, holds a ':') and exists. `exists` is `os.path.exists`, with a
      raised error read as `false`. */
  function IsLocalFile(path: string, isWindows: bool, pathExists: string -> bool): (b: bool)
    ensures b ==> path != [] && pathExists(path) && !IsRemote(path)
    ensures b ==> path[0] == '/' || (isWindows && ':' in path)
  {
    if path == [] then false
    else if IsRemote(path) then false
    else if StartsWith(path, "/") || (isWindows && ':' in path) then pathExists(path)
    else false
  }

  /** An absolute POSIX path is local exactly when it exists. */
  lemma AbsolutePathLocalIffExists(path: string, isWindows: bool, pathExists: string -> bool)
    requires path != [] && path[0] == '/'
    ensures IsLocalFile(path, isWindows, pathExists) <==> pathExists(path)
  {
    assert !IsRemote(path) by {
      assert path[..1] == ['/'];
      assert forall p: string :: |p| >= 1 && StartsWith(path, p) ==> p[0] == '/' by {
        forall p: string | |p| >= 1 && StartsWith(path, p)
          ensures p[0] == '/'
        {
          assert path[..|p|][0] == path[0];
        }
      }
    }
    assert StartsWith(path, "/");
  }

  /** A remote URL is never local, whatever the file system says. */
  lemma RemoteNeverLocal(path: string, isWindows: bool, pathExists: string -> bool)
    requires IsRemote(path)
    ensures !IsLocalFile(path, isWindows, pathExists)
  {
  }

  /** Outside Windows a path that does not start with '/' is never local. */
  lemma RelativeNeverLocal(path: string, pathExists: string -> bool)
    requires path == [] || path[0] != '/'
    ensures !IsLocalFile(path, false, pathExists)
  {
  }

  // ---------------------------------------------------------------------------
  // The first available result

  /** The first present value of `results`, or `None`. */
  function FirstSome(results: seq<Option<int>>): (r: Option<int>)
    ensures r.None? <==> forall i :: 0 <= i < |results| ==> results[i].None?
    ensures r.Some? ==> exists i :: 0 <= i < |results| && results[i] == r
                                 && forall j :: 0 <= j < i ==> results[j].None?
  {
    FirstSomeFrom(results, 0)
  }

  function FirstSomeFrom(results: seq<Option<int>>, i: nat): (r: Option<int>)
    requires i <= |results|
    ensures r.None? <==> forall k :: i <= k < |results| ==> results[k].None?
    ensures r.Some? ==> exists k :: i <= k < |results| && results[k] == r
                                 && forall j :: i <= j < k ==> results[j].None?
    decreases |results| - i
  {
    if i == |results| then None
    else if results[i].Some? then results[i]
    else FirstSomeFrom(results, i + 1)
  }

  /** The loop over the results in order that returns the first one that is
      not `None` (addon.py:173-178 and 508-512). */
  method FirstNonNone(results: seq<Option<int>>) returns (r: Option<int>)
    ensures r == FirstSome(results)
  {
    for i := 0 to |results|
      invariant FirstSomeFrom(results, i) == FirstSome(results)
    {
      if results[i].Some? {
        return results[i];
      }
    }
    return None;
  }

  // ---------------------------------------------------------------------------
  // KodiMetadataProvider

  /** `label.replace("AR", "").split(":")[0].strip()` */
  function CleanLabel(videoAspect: string): string {
    Strip(BeforeFirst(ReplaceAll(videoAspect, "AR", ""), ':'))
  }

  /** The ratio in hundredths read from the `VideoPlayer.VideoAspect` label:
      `None` when the label is empty, is the unresolved label name, or does not
      clean to a number. */
  function LabelRatio(videoAspect: string): Option<int> {
    if videoAspect == [] || videoAspect == "VideoPlayer.VideoAspect" then None
    else
      match ParseDecimal(CleanLabel(videoAspect))
      case Some(x) => Some(RatioInt(x))
      case None => None
  }

  /** `KodiMetadataProvider.get_aspect_ratio`: the label's ratio if it has one,
      else the JSON-RPC stream-details ratio. */
  function KodiRatio(videoAspect: string, jsonRpc: Option<int>): (r: Option<int>)
    ensures LabelRatio(videoAspect).Some? ==> r == LabelRatio(videoAspect)
    ensures LabelRatio(videoAspect).None? ==> r == jsonRpc
  {
    FirstSomeOfTwo(LabelRatio(videoAspect), jsonRpc);
    FirstSome([LabelRatio(videoAspect), jsonRpc])
  }

  /** Of two results, the first is taken when present. */
  lemma FirstSomeOfTwo(a: Option<int>, b: Option<int>)
    ensures FirstSome([a, b]) == if a.Some? then a else b
  {
    var rs := [a, b];
    assert FirstSomeFrom(rs, 2) == None;
    assert FirstSomeFrom(rs, 1) == b;
  }

  /** Of four results, the first present one is taken. */
  lemma FirstSomeOfFour(a: Option<int>, b: Option<int>, c: Option<int>, d: Option<int>)
    ensures FirstSome([a, b, c, d]) == if a.Some? then a else if b.Some? then b else if c.Some? then c else d
  {
    var rs := [a, b, c, d];
    assert FirstSomeFrom(rs, 4) == None;
    assert FirstSomeFrom(rs, 3) == d;
    assert FirstSomeFrom(rs, 2) == if c.Some? then c else d;
    assert FirstSomeFrom(rs, 1) == if b.Some? then b else if c.Some? then c else d;
  }

  /** The provider as the code performs it: the results of both methods in
      order, then the first that is not `None`. */
  method GetKodiAspectRatio(videoAspect: string, jsonRpc: Option<int>) returns (r: Option<int>)
    ensures r == KodiRatio(videoAspect, jsonRpc)
  {
    var results := [LabelRatio(videoAspect), jsonRpc];
    r := FirstNonNone(results);
  }

  /** Decimal text `N.F`. */
  function DecimalWord(whole: string, fraction: string): string {
    whole + ['.'] + fraction
  }

  lemma DecimalWordText(whole: string, fraction: string)
    requires AllDigits(whole) && AllDigits(fraction)
    ensures NoSpace(DecimalWord(whole, fraction))
    ensures 'A' !in DecimalWord(whole, fraction) && ':' !in DecimalWord(whole, fraction)
  {
    DecimalTextOf(whole, fraction);
  }

  /** A cleaned label "N.F" with at most two fractional digits reads exactly. */
  lemma CleanDecimalRatio(whole: string, fraction: string)
    requires AllDigits(whole) && AllDigits(fraction) && |whole| + |fraction| > 0 && |fraction| <= 2
    ensures ParseDecimal(Strip(DecimalWord(whole, fraction))) == Some(DecimalValue(whole, fraction))
    ensures RatioInt(DecimalValue(whole, fraction)) == 100 * DigitsValue(whole) + Cents(fraction)
  {
    DecimalWordText(whole, fraction);
    StripNoSpace(DecimalWord(whole, fraction));
    ParseDecimalFraction(whole, fraction);
    RatioIntTwoDecimals(whole, fraction);
  }

  /** A label that is neither empty nor the label name, and cleans to "N.F",
      reads as N.F in hundredths. */
  lemma LabelOfCleanDecimal(videoAspect: string, whole: string, fraction: string)
    requires AllDigits(whole) && AllDigits(fraction) && |whole| + |fraction| > 0
    requires videoAspect != [] && videoAspect != "VideoPlayer.VideoAspect"
    requires ReplaceAll(videoAspect, "AR", "") == DecimalWord(whole, fraction)
    ensures LabelRatio(videoAspect) == Some(RatioInt(DecimalValue(whole, fraction)))
  {
    DecimalWordText(whole, fraction);
    StripNoSpace(DecimalWord(whole, fraction));
    assert CleanLabel(videoAspect) == DecimalWord(whole, fraction);
    ParseDecimalFraction(whole, fraction);
  }

  /** Removing "AR" from a text without 'A' followed by "AR" gives the text. */
  lemma ArSuffixRemoved(d: string)
    requires 'A' !in d
    ensures ReplaceAll(d + "AR", "AR", "") == d
  {
    var s := d + "AR";
    forall k | 0 <= k < |d|
      ensures !OccursAt(s, "AR", k)
    {
      assert s[k] == d[k];
      NotOccursAtFirst(s, "AR", k);
    }
    ReplaceFromCopies(s, "AR", [], 0, |d|);
    assert OccursAt(s, "AR", |d|);
    assert ReplaceFrom(s, "AR", [], |d|) == [];
    assert s[0..|d|] == d;
  }

  /** The "AR" suffix is dropped: "1.85AR" gives 185. */
  lemma LabelWithArSuffix(whole: string, fraction: string)
    requires AllDigits(whole) && AllDigits(fraction) && |whole| + |fraction| > 0 && |fraction| <= 2
    ensures var s := DecimalWord(whole, fraction) + "AR";
            LabelRatio(s).Some? && LabelRatio(s).value == 100 * DigitsValue(whole) + Cents(fraction)
  {
    var s := DecimalWord(whole, fraction) + "AR";
    var x := DecimalValue(whole, fraction);
    assert LabelRatio(s) == Some(RatioInt(x)) by {
      DecimalWordText(whole, fraction);
      ArSuffixRemoved(DecimalWord(whole, fraction));
      assert s[|s| - 1] == 'R';
      LabelOfCleanDecimal(s, whole, fraction);
    }
    assert RatioInt(x) == 100 * DigitsValue(whole) + Cents(fraction) by {
      RatioIntTwoDecimals(whole, fraction);
    }
  }

  /** Removing "AR" and cutting at the first ':' of `d + ":" + rest` gives `d`. */
  lemma ColonCut(d: string, rest: string)
    requires 'A' !in d && ':' !in d && 'A' !in rest
    ensures BeforeFirst(ReplaceAll(d + [':'] + rest, "AR", ""), ':') == d
  {
    var s := d + [':'] + rest;
    assert 'A' !in s;
    NotContainsFirst(s, "AR");
    ReplaceAbsent(s, "AR", []);
    IndexOfAfter(d, ':', rest);
  }

  /** Only the part before the first ':' is read: "1.85:1" gives 185. */
  lemma LabelWithColon(whole: string, fraction: string, rest: string)
    requires AllDigits(whole) && AllDigits(fraction) && |whole| + |fraction| > 0
    requires 'A' !in rest
    ensures LabelRatio(DecimalWord(whole, fraction) + [':'] + rest) == Some(RatioInt(DecimalValue(whole, fraction)))
  {
    var d := DecimalWord(whole, fraction);
    var s := d + [':'] + rest;
    DecimalWordText(whole, fraction);
    ColonCut(d, rest);
    StripNoSpace(d);
    assert CleanLabel(s) == d;
    assert s[|d|] == ':';
    ParseDecimalFraction(whole, fraction);
  }

  /** The "AR" label format: "1.85AR" reads as 185. */
  lemma ArLabelExample()
    ensures LabelRatio("1.85AR").Some? && LabelRatio("1.85AR").value == 185
  {
    assert AllDigits("1") && AllDigits("85");
    assert DigitsValue("1") == 1 && Cents("85") == 85;
    assert DecimalWord("1", "85") + "AR" == "1.85AR";
    LabelWithArSuffix("1", "85");
  }

  /** The colon label format: "2.35:1" reads as 235. */
  lemma ColonLabelExample()
    ensures LabelRatio("2.35:1").Some? && LabelRatio("2.35:1").value == 235
  {
    assert AllDigits("2") && AllDigits("35");
    assert DigitsValue("2") == 2 && Cents("35") == 35;
    assert DecimalWord("2", "35") + [':'] + "1" == "2.35:1";
    LabelWithColon("2", "35", "1");
    RatioIntTwoDecimals("2", "35");
  }

  // ---------------------------------------------------------------------------
  // FileMetadataProvider and IMDbProvider

  /** `extract_from_file(path)`: no file parser is wired in, so there is never a ratio. */
  function ExtractFromFile(path: string): Option<int> {
    None
  }

  /** `IMDbProvider.get_aspect_ratio`: the scraper's text, or the first text
      of its list, read by `int()`; an empty list or text gives `None`. */
  function ImdbRatio(s: Scraped): Option<int> {
    match s
    case NoRatio => None
    case Ratio(t) => if t == [] then None else ParseInt(t)
    case Ratios(ts) => if ts == [] || ts[0] == [] then None else ParseInt(ts[0])
  }

  /** The text the provider reads: the single ratio, or the first of the list. */
  function FirstText(s: Scraped): Option<string> {
    match s
    case NoRatio => None
    case Ratio(t) => Some(t)
    case Ratios(ts) => if ts == [] then None else Some(ts[0])
  }

  /** On what the scraper returns, the provider yields a non-zero ratio exactly
      when there is a text to read, and that ratio spells the text. */
  lemma ImdbRatioOfScraped(title: string, number: string, fetch: string -> Option<Page>)
    ensures var s := OriginalAspectRatio(title, number, fetch);
            var r := ImdbRatio(s);
            && (r.Some? <==> FirstText(s).Some?)
            && (r.Some? ==> r.value != 0 && IntToString(r.value) == FirstText(s).value)
  {
    var s := OriginalAspectRatio(title, number, fetch);
    OriginalAspectRatioTexts(title, number, fetch);
    match s
    case NoRatio =>
    case Ratio(t) =>
      assert IntToString(ParseInt(t).value) == t;
    case Ratios(ts) =>
      if ts != [] {
        assert RatioText(ts[0]);
        assert IntToString(ParseInt(ts[0]).value) == ts[0];
      }
  }

  /** A list result is read as its first ratio. */
  lemma ImdbRatioOfList(ts: seq<string>, v: int)
    requires v != 0
    ensures ImdbRatio(Ratios([IntToString(v)] + ts)) == Some(v)
  {
    ParseIntToString(v);
    assert ([IntToString(v)] + ts)[0] == IntToString(v);
  }
}
