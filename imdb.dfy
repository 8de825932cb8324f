/**
 * The text and URL handling of the IMDb scraper (imdb.py): the aspect-ratio
 * text parser, IMDb id normalisation, the IMDb number in a search-result link,
 * the title-page path normalisation, the choice among the entries of the
 * technical-specifications page, and the order in which
 * `getOriginalAspectRatio` consults pages. Fetching and HTML searching are an
 * abstract `fetch` from URLs to what the BeautifulSoup searches find on the page.
 */
module Imdb {
  import opened Wrappers
  import opened Strings
  import opened Numbers

  const BaseUrl: string := "https://www.imdb.com"
  const TheatricalTag: string := "(theatrical ratio)"

  // ---------------------------------------------------------------------------
  // _parse_aspect_ratio

  /** `_parse_aspect_ratio(text)`: only the first whitespace-separated word is
      read; "W:H" gives the rounded quotient in hundredths, a plain decimal its
      rounded hundredths; anything else gives `None`. The empty text (Python's
      `None` or `""`) gives `None`. */
  function ParseAspectRatio(text: string): Option<int> {
    if text == [] then None else ParseToken(FirstWord(Strip(text)))
  }

  /** The first word, read as "W:H" when it holds a colon and as a decimal otherwise. */
  function ParseToken(token: string): Option<int> {
    if ':' in token then ParseQuotient(SplitOn(token, ':'))
    else
      match ParseDecimal(token)
      case Some(x) => Some(RatioInt(x))
      case None => None
  }

  /** The pieces around the colons: exactly two numbers with a positive denominator. */
  function ParseQuotient(parts: seq<string>): Option<int> {
    if |parts| == 2 then Quotient(ParseDecimal(Strip(parts[0])), ParseDecimal(Strip(parts[1])))
    else None
  }

  /** `int((num / den + 0.005) * 100)` when both numbers parsed and `den > 0`. */
  function Quotient(num: Option<real>, den: Option<real>): (r: Option<int>)
    ensures r.Some? <==> (num.Some? && den.Some? && den.value > 0.0)
    ensures r.Some? ==> r.value == RatioInt(num.value / den.value)
    ensures r.Some? && num.value >= 0.0 ==>
      r.value as real <= 100.0 * (num.value / den.value) + 0.5 < r.value as real + 1.0
    ensures r.Some? && num.value < 0.0 && num.value / den.value <= -0.005 ==>
      r.value as real - 1.0 < 100.0 * (num.value / den.value) + 0.5 <= r.value as real
  {
    if num.Some? && den.Some? && den.value > 0.0 then Some(RatioInt(num.value / den.value))
    else None
  }

  /** Only the first word is read: whatever follows whitespace is ignored. */
  lemma ReadsFirstWord(w: string, rest: string)
    requires WordThenRest(w, rest)
    ensures ParseAspectRatio(w + rest) == ParseToken(w)
  {
    FirstWordOfStrip(w, rest);
  }

  /** A word with one colon is read as the quotient of the two sides. */
  lemma ColonWord(a: string, b: string)
    requires NoSpace(a) && NoSpace(b) && ':' !in a && ':' !in b
    ensures NoSpace(a + [':'] + b)
    ensures ParseToken(a + [':'] + b) == Quotient(ParseDecimal(a), ParseDecimal(b))
  {
    var w := a + [':'] + b;
    NoSpaceAppend(a, [':']);
    NoSpaceAppend(a + [':'], b);
    assert w[|a|] == ':';
    SplitOnOnce(a, b, ':');
    QuotientOfWords(a, b);
  }

  lemma QuotientOfWords(a: string, b: string)
    requires NoSpace(a) && NoSpace(b)
    ensures ParseQuotient([a, b]) == Quotient(ParseDecimal(a), ParseDecimal(b))
  {
    StripNoSpace(a);
    StripNoSpace(b);
  }

  /** Colon form: "A:B" (then anything after whitespace) parses iff both sides
      are numbers and the denominator is positive, to the rounded quotient. */
  lemma ColonForm(a: string, b: string, rest: string)
    requires NoSpace(a) && NoSpace(b) && ':' !in a && ':' !in b
    requires rest == [] || IsSpace(rest[0])
    ensures ParseAspectRatio(a + [':'] + b + rest) == Quotient(ParseDecimal(a), ParseDecimal(b))
  {
    ColonWord(a, b);
    assert a + [':'] + b + rest == (a + [':'] + b) + rest;
    ReadsFirstWord(a + [':'] + b, rest);
  }

  /** Decimal form: a word without a colon parses iff it is a number, to its
      rounded hundredths. */
  lemma DecimalForm(a: string, rest: string)
    requires WordThenRest(a, rest) && ':' !in a
    ensures ParseAspectRatio(a + rest)
         == match ParseDecimal(a) case Some(x) => Some(RatioInt(x)) case None => None
  {
    ReadsFirstWord(a, rest);
  }

  /** A colon form with three or more parts gives `None`. */
  lemma ColonFormTooManyParts(a: string, b: string, c: string, rest: string)
    requires NoSpace(a) && NoSpace(b) && NoSpace(c) && ':' !in a
    requires rest == [] || IsSpace(rest[0])
    ensures ParseAspectRatio(a + [':'] + b + [':'] + c + rest) == None
  {
    var t := b + [':'] + c;
    var w := a + [':'] + t;
    assert NoSpace(w) by {
      NoSpaceAppend(b, [':']);
      NoSpaceAppend(b + [':'], c);
      NoSpaceAppend(a, [':']);
      NoSpaceAppend(a + [':'], t);
      assert a + [':'] + t == w;
    }
    assert ParseAspectRatio(a + [':'] + b + [':'] + c + rest) == ParseToken(w) by {
      assert w + rest == a + [':'] + b + [':'] + c + rest;
      ReadsFirstWord(w, rest);
    }
    assert |SplitOn(w, ':')| >= 3 by {
      IndexOfAfter(a, ':', t);
      assert t[|b|] == ':';
      assert ':' in t;
    }
    assert w[|a|] == ':';
  }

  /** "W:H" with whole numbers: the ratio rounded half up, as
      `(200 * W + H) / (2 * H)`; a zero height gives `None`. "16:9" gives 178. */
  lemma ColonOfWholeNumbers(w: nat, h: nat, rest: string)
    requires rest == [] || IsSpace(rest[0])
    ensures ParseAspectRatio(NatToString(w) + [':'] + NatToString(h) + rest)
         == if h > 0 then Some((200 * w + h) / (2 * h)) else None
  {
    var a, b := NatToString(w), NatToString(h);
    assert NoSpace(a) && NoSpace(b) && ':' !in a && ':' !in b by {
      assert forall i :: 0 <= i < |a| ==> IsDigit(a[i]);
      assert forall i :: 0 <= i < |b| ==> IsDigit(b[i]);
    }
    ColonForm(a, b, rest);
    ParseDecimalWhole(a);
    ParseDecimalWhole(b);
    if h > 0 {
      RatioIntOfQuotient(w, h);
    }
  }

  /** "N.FF" with at most two fractional digits is read exactly: "2.35" gives
      235, "1.85 : 1" gives 185 (only "1.85" is read). */
  lemma DecimalOfTwoDigits(whole: string, fraction: string, rest: string)
    requires AllDigits(whole) && AllDigits(fraction) && whole != [] && |fraction| <= 2
    requires rest == [] || IsSpace(rest[0])
    ensures var r := ParseAspectRatio(whole + ['.'] + fraction + rest);
            r.Some? && r.value == 100 * DigitsValue(whole) + Cents(fraction)
  {
    var a := whole + ['.'] + fraction;
    var x := DecimalValue(whole, fraction);
    assert ParseAspectRatio(a + rest) == Some(RatioInt(x)) by {
      DecimalTextOf(whole, fraction);
      ReadsFirstWord(a, rest);
      DecimalToken(whole, fraction);
    }
    assert RatioInt(x) == 100 * DigitsValue(whole) + Cents(fraction) by {
      RatioIntTwoDecimals(whole, fraction);
    }
  }

  lemma DecimalToken(whole: string, fraction: string)
    requires AllDigits(whole) && AllDigits(fraction) && whole != []
    ensures ParseToken(whole + ['.'] + fraction) == Some(RatioInt(DecimalValue(whole, fraction)))
  {
    var a := whole + ['.'] + fraction;
    DecimalTextOf(whole, fraction);
    assert ':' !in a;
    ParseDecimalFraction(whole, fraction);
  }

  /** Text with no word at all gives `None`. */
  lemma BlankText(text: string)
    requires forall i :: 0 <= i < |text| ==> IsSpace(text[i])
    ensures ParseAspectRatio(text) == None
  {
    if text != [] {
      BlankStrip(text);
      assert ParseDecimal([]) == None by {
        StripNoSpace([]);
      }
    }
  }

  // ---------------------------------------------------------------------------
  // IMDb ids, links and paths inside getOriginalAspectRatio

  /** The id normalisation of imdb.py:107-114 (and 269-276): add "tt" to a
      number or to any id that lacks it. */
  function NormalizeImdbId(n: string): (id: string)
    ensures StartsWith(id, "tt")
    ensures StartsWith(n, "tt") ==> id == n
    ensures !StartsWith(n, "tt") ==> id == "tt" + n
    ensures IsDigits(n) ==> id == "tt" + n
  {
    assert IsDigits(n) ==> !StartsWith(n, "tt") by {
      if IsDigits(n) && |n| >= 2 { assert '0' <= n[0] <= '9'; }
    }
    if IsDigits(n) then "tt" + n
    else if !StartsWith(n, "tt") then "tt" + n
    else n
  }

  lemma NormalizeImdbIdIdempotent(n: string)
    ensures NormalizeImdbId(NormalizeImdbId(n)) == NormalizeImdbId(n)
  {
  }

  /** `rsplit("/title/", 1)[-1].split("/")[0].split("?")[0]` */
  function TitleSegment(href: string): string {
    BeforeFirst(BeforeFirst(AfterLast(href, "/title/"), '/'), '?')
  }

  /** The IMDb number taken from a search-result link (imdb.py:192-198): the
      segment after the last "/title/", cut at the first '/' and then at the
      first '?'; "" when the link has no "/title/" even after language prefixes
      are dropped, which the caller treats as a failure. */
  function HrefImdbNumber(href: string): (n: string)
    ensures '/' !in n && '?' !in n
    ensures Contains(href, "/title/") ==> n == TitleSegment(href)
  {
    if Contains(href, "/title/") then TitleSegment(href)
    else if Contains(ReplaceAll(ReplaceAll(href, "/fr/", "/"), "/en/", "/"), "/title/") then
      TitleSegment(href)
    else []
  }

  /** The title-page path built from a search-result link (imdb.py:203-215). */
  function TitlePath(href: string): (p: string)
    ensures p != [] && p[0] == '/' && p[|p| - 1] == '/'
    ensures '?' !in p
  {
    var unprefixed := ReplaceAll(ReplaceAll(href, "/fr/title/", "/title/"), "/en/title/", "/title/");
    var path := BeforeFirst(unprefixed, '?');
    var rooted := if StartsWith(path, "/") then path else "/" + path;
    if EndsWith(rooted, "/") then rooted else rooted + "/"
  }

  /** The step-by-step normalisation of imdb.py:203-215, as the code performs it. */
  method NormalizeTitleUrl(titleUrl: string) returns (normalized: string)
    ensures normalized == TitlePath(titleUrl)
    ensures normalized != [] && normalized[0] == '/' && normalized[|normalized| - 1] == '/'
    ensures '?' !in normalized
  {
    normalized := titleUrl;
    if Contains(normalized, "/fr/title/") || Contains(normalized, "/en/title/") {
      normalized := ReplaceAll(ReplaceAll(normalized, "/fr/title/", "/title/"), "/en/title/", "/title/");
    } else {
      ReplaceAbsent(normalized, "/fr/title/", "/title/");
      ReplaceAbsent(normalized, "/en/title/", "/title/");
    }
    if '?' in normalized {
      normalized := SplitOn(normalized, '?')[0];
    }
    if !StartsWith(normalized, "/") {
      normalized := "/" + normalized;
    }
    if !EndsWith(normalized, "/") {
      normalized := normalized + "/";
    }
  }

  /** An already-normal title path is left as it is. */
  lemma TitlePathOfNormalPath(p: string)
    requires p != [] && p[0] == '/' && p[|p| - 1] == '/' && '?' !in p
    requires !Contains(p, "/fr/title/") && !Contains(p, "/en/title/")
    ensures TitlePath(p) == p
  {
    ReplaceAbsent(p, "/fr/title/", "/title/");
    ReplaceAbsent(p, "/en/title/", "/title/");
  }

  /** A path `x + id + "/"` in which no '/' is followed by the second
      character of `p` holds no `p`: the id has no '/' and does not start with
      that character. */
  lemma NoPatternInPath(x: string, id: string, p: string)
    requires |p| >= 2 && p[0] == '/'
    requires id != [] && '/' !in id && id[0] != p[1]
    requires forall k :: 0 <= k < |x| - 1 && x[k] == '/' ==> x[k + 1] != p[1]
    ensures !Contains(x + id + "/", p)
  {
    var s := x + id + "/";
    forall k | 0 <= k < |s| - 1
      ensures s[k] == p[0] ==> s[k + 1] != p[1]
    {
      if k < |x| - 1 {
        assert s[k] == x[k] && s[k + 1] == x[k + 1];
      } else if k == |x| - 1 {
        assert s[k + 1] == id[0];
      } else {
        assert s[k] == id[k - |x|];
      }
    }
    NotContainsPair(s, p);
  }

  /** Both language replacements of `TitlePath` turn "<prefix>/title/<id>/"
      into "/title/<id>/". */
  lemma UnprefixTitle(prefix: string, id: string)
    requires prefix in {"", "/fr", "/en"}
    requires StartsWith(id, "tt") && '/' !in id
    ensures ReplaceAll(ReplaceAll(prefix + "/title/" + id + "/", "/fr/title/", "/title/"), "/en/title/", "/title/")
      == "/title/" + id + "/"
  {
    var path := "/title/" + id + "/";
    NoPatternInPath("/title/", id, "/fr/title/");
    NoPatternInPath("/title/", id, "/en/title/");
    if prefix == "/fr" {
      assert prefix + "/title/" + id + "/" == "/fr/title/" + id + "/";
      UnprefixOne("/fr/title/", id);
      ReplaceAbsent(path, "/en/title/", "/title/");
    } else if prefix == "/en" {
      assert prefix + "/title/" + id + "/" == "/en/title/" + id + "/";
      NoPatternInPath("/en/title/", id, "/fr/title/");
      ReplaceAbsent("/en/title/" + id + "/", "/fr/title/", "/title/");
      UnprefixOne("/en/title/", id);
    } else {
      assert prefix + "/title/" + id + "/" == path;
      ReplaceAbsent(path, "/fr/title/", "/title/");
      ReplaceAbsent(path, "/en/title/", "/title/");
    }
  }

  /** Replacing the language-prefixed `p` heading "<p><id>/" by "/title/". */
  lemma UnprefixOne(p: string, id: string)
    requires p == "/fr/title/" || p == "/en/title/"
    requires StartsWith(id, "tt") && '/' !in id
    ensures ReplaceAll(p + id + "/", p, "/title/") == "/title/" + id + "/"
  {
    assert p + id + "/" == p + (id + "/");
    ReplaceHead(id + "/", p, "/title/");
    NoPatternInPath([], id, p);
    assert [] + id + "/" == id + "/";
    ReplaceAbsent(id + "/", p, "/title/");
  }

  /** A search-result link to a title page, "/title/<id>/?<query>", possibly
      behind a "/fr" or "/en" language prefix, is normalised to the bare
      "/title/<id>/": the prefix and the query are dropped. */
  lemma TitlePathOfLink(prefix: string, id: string, query: string)
    requires prefix in {"", "/fr", "/en"}
    requires StartsWith(id, "tt") && '/' !in id && '?' !in id
    ensures TitlePath(prefix + "/title/" + id + "/?" + query) == "/title/" + id + "/"
  {
    var head := prefix + "/title/" + id + "/";
    assert prefix + "/title/" + id + "/?" + query == head + ['?'] + query;
    UnprefixTitle(prefix, id);
    TitlePathAtQuery(head, query);
  }

  /** A link without a query, "<prefix>/title/<id>/" with no prefix, a "/fr"
      or an "/en" prefix, is normalised to "/title/<id>/" as well. */
  lemma TitlePathOfQueryFreeLink(prefix: string, id: string)
    requires prefix in {"", "/fr", "/en"}
    requires StartsWith(id, "tt") && '/' !in id && '?' !in id
    ensures TitlePath(prefix + "/title/" + id + "/") == "/title/" + id + "/"
  {
    var path := "/title/" + id + "/";
    UnprefixTitle(prefix, id);
    assert '?' !in path;
    assert path[..1] == "/" && path[|path| - 1..] == "/";
  }

  /** The query after the first '?' of a link is dropped, when the language
      replacements give a path "/<...>/" without '?'. */
  lemma TitlePathAtQuery(head: string, query: string)
    requires var path := ReplaceAll(ReplaceAll(head, "/fr/title/", "/title/"), "/en/title/", "/title/");
      '?' !in path && StartsWith(path, "/") && EndsWith(path, "/")
    ensures TitlePath(head + ['?'] + query) ==
      ReplaceAll(ReplaceAll(head, "/fr/title/", "/title/"), "/en/title/", "/title/")
  {
    var fr, en, bare := "/fr/title/", "/en/title/", "/title/";
    var once := ReplaceAll(head, fr, bare);
    var q1 := ReplaceAll(query, fr, bare);
    var path := ReplaceAll(once, en, bare);
    ReplaceAroundChar(head, '?', query, fr, bare);
    ReplaceAroundChar(once, '?', q1, en, bare);
    IndexOfAfter(path, '?', ReplaceAll(q1, en, bare));
  }

  /** "/title/" does not occur in "<id>/?<query>" when neither `id` nor
      `query` holds a '/'. */
  lemma NoTitleInTail(id: string, query: string)
    requires '/' !in id && '/' !in query
    ensures !Contains(id + "/?" + query, "/title/")
  {
    var t := id + "/?" + query;
    forall k | 0 <= k < |t| - 1
      ensures t[k] == '/' ==> t[k + 1] != 't'
    {
      if k < |id| {
        assert t[k] == id[k];
      } else if k == |id| {
        assert t[k + 1] == '?';
      } else if k == |id| + 1 {
        assert t[k] == '?';
      } else {
        assert t[k] == query[k - |id| - 2];
      }
    }
    NotContainsPair(t, "/title/");
  }

  /** In a link "<prefix>/title/<id>/?<query>" no "/title/" starts after the
      one behind the prefix. */
  lemma NoTitleAfter(prefix: string, id: string, query: string, m: nat)
    requires StartsWith(id, "tt") && '/' !in id && '/' !in query
    requires |prefix| < m
    ensures !OccursAt(prefix + "/title/" + id + "/?" + query, "/title/", m)
  {
    var title := "/title/";
    var tail := id + "/?" + query;
    var h := prefix + title + id + "/?" + query;
    var k0 := |prefix|;
    assert h == prefix + title + tail;
    if m < k0 + 6 {
      OccursAtIndex(h, title, m, 0);
      assert h[m] == title[m - k0];
    } else if m == k0 + 6 {
      OccursAtIndex(h, title, m, 2);
      assert h[m + 2] == id[1];
    } else if m <= |h| {
      assert h[k0 + 7..] == tail;
      NoTitleInTail(id, query);
      OccursInDrop(h, k0 + 7, title, m - k0 - 7);
    }
  }

  /** The text after the last "/title/" of such a link is "<id>/?<query>". */
  lemma AfterLastTitleOfLink(prefix: string, id: string, query: string)
    requires StartsWith(id, "tt") && '/' !in id && '/' !in query
    ensures Contains(prefix + "/title/" + id + "/?" + query, "/title/")
    ensures AfterLast(prefix + "/title/" + id + "/?" + query, "/title/") == id + "/?" + query
  {
    var title := "/title/";
    var tail := id + "/?" + query;
    var h := prefix + title + id + "/?" + query;
    var k0 := |prefix|;
    assert h == prefix + title + tail;
    assert h[k0..k0 + 7] == title;
    assert h[k0 + 7..] == tail;
    forall m | k0 < m < |h|
      ensures !OccursAt(h, title, m)
    {
      NoTitleAfter(prefix, id, query, m);
    }
    FindLastBeforeAt(h, title, k0, |h|);
  }

  /** The IMDb number of a search-result link "/title/<id>/?<query>",
      possibly behind a "/fr" or "/en" language prefix, is `id`. */
  lemma HrefNumberOfLink(prefix: string, id: string, query: string)
    requires prefix in {"", "/fr", "/en"}
    requires StartsWith(id, "tt") && '/' !in id && '?' !in id && '/' !in query
    ensures HrefImdbNumber(prefix + "/title/" + id + "/?" + query) == id
  {
    AfterLastTitleOfLink(prefix, id, query);
    assert id + "/?" + query == id + ['/'] + ("?" + query);
    IndexOfAfter(id, '/', "?" + query);
  }

  // ---------------------------------------------------------------------------
  // The technical-specifications page

  /** One entry of the aspect-ratio list: the decoded contents of its content
      item and of its sub-text item, `None` where the item is absent. */
  datatype TechEntry = TechEntry(content: Option<string>, subText: Option<string>)

  /** What `getOriginalAspectRatio` returns: nothing, one ratio, or a list. */
  datatype Scraped = NoRatio | Ratio(text: string) | Ratios(texts: seq<string>)

  /** The ratio an entry contributes, `None` for a skipped entry. */
  function EntryRatio(e: TechEntry): (r: Option<int>)
    ensures r.Some? ==> r.value != 0 && e.content.Some? && Truthy(ParseAspectRatio(e.content.value)) == r
  {
    match e.content
    case None => None
    case Some(text) => if text == [] then None else Truthy(ParseAspectRatio(text))
  }

  predicate IsTheatrical(e: TechEntry) {
    e.subText == Some(TheatricalTag)
  }

  function Prepend(s: string, r: Scraped): Scraped {
    match r
    case Ratios(xs) => Ratios([s] + xs)
    case _ => r
  }

  /** The choice among the entries (imdb.py:298-333): the first surviving
      entry tagged "(theatrical ratio)" alone, or else every surviving ratio
      in document order. */
  function SelectRatios(entries: seq<TechEntry>): Scraped
    decreases |entries|
  {
    if entries == [] then Ratios([])
    else match EntryRatio(entries[0])
      case None => SelectRatios(entries[1..])
      case Some(v) =>
        if IsTheatrical(entries[0]) then Ratio(IntToString(v))
        else Prepend(IntToString(v), SelectRatios(entries[1..]))
  }

  /** The texts of every surviving entry, in document order. */
  function SurvivingRatios(entries: seq<TechEntry>): seq<string>
    decreases |entries|
  {
    if entries == [] then []
    else match EntryRatio(entries[0])
      case None => SurvivingRatios(entries[1..])
      case Some(v) => [IntToString(v)] + SurvivingRatios(entries[1..])
  }

  /** Without a surviving theatrical entry the list of all surviving ratios is returned. */
  lemma {:induction false} SelectWithoutTheatrical(entries: seq<TechEntry>)
    requires NoTheatricalIn(entries, 0, |entries|)
    ensures SelectRatios(entries) == Ratios(SurvivingRatios(entries))
    decreases |entries|
  {
    if entries != [] {
      var rest := entries[1..];
      assert NoTheatricalIn(rest, 0, |rest|) by {
        assert forall i :: 0 <= i < |rest| ==> rest[i] == entries[i + 1];
      }
      SelectWithoutTheatrical(rest);
    }
  }

  /** No surviving entry in `entries[j..k]` is tagged theatrical. */
  predicate NoTheatricalIn(entries: seq<TechEntry>, j: nat, k: nat)
    requires j <= k <= |entries|
  {
    forall i :: j <= i < k && EntryRatio(entries[i]).Some? ==> !IsTheatrical(entries[i])
  }

  /** The first surviving theatrical entry wins, and nothing after it matters. */
  lemma SelectFirstTheatrical(entries: seq<TechEntry>, k: nat)
    requires k < |entries| && EntryRatio(entries[k]).Some? && IsTheatrical(entries[k])
    requires NoTheatricalIn(entries, 0, k)
    ensures SelectRatios(entries) == Ratio(IntToString(EntryRatio(entries[k]).value))
  {
    SelectFirstTheatricalFrom(entries, 0, k);
    assert entries[0..] == entries;
  }

  lemma {:induction false} SelectFirstTheatricalFrom(entries: seq<TechEntry>, j: nat, k: nat)
    requires j <= k < |entries| && EntryRatio(entries[k]).Some? && IsTheatrical(entries[k])
    requires NoTheatricalIn(entries, j, k)
    ensures SelectRatios(entries[j..]) == Ratio(IntToString(EntryRatio(entries[k]).value))
    decreases k - j
  {
    SelectRatiosStep(entries, j);
    if j < k {
      SelectFirstTheatricalFrom(entries, j + 1, k);
    }
  }

  function PrependAll(acc: seq<string>, r: Scraped): Scraped {
    match r
    case Ratios(xs) => Ratios(acc + xs)
    case _ => r
  }

  /** One step of the choice: what the entry at `i` contributes before the rest. */
  lemma SelectRatiosStep(entries: seq<TechEntry>, i: nat)
    requires i < |entries|
    ensures SelectRatios(entries[i..])
         == match EntryRatio(entries[i])
            case None => SelectRatios(entries[i + 1..])
            case Some(v) =>
              if IsTheatrical(entries[i]) then Ratio(IntToString(v))
              else Prepend(IntToString(v), SelectRatios(entries[i + 1..]))
  {
    assert entries[i..][1..] == entries[i + 1..];
  }

  lemma PrependAllPrepend(acc: seq<string>, s: string, r: Scraped)
    ensures PrependAll(acc, Prepend(s, r)) == PrependAll(acc + [s], r)
  {
    if r.Ratios? {
      assert acc + ([s] + r.texts) == acc + [s] + r.texts;
    }
  }

  /** The loop of imdb.py:298-333 with its `continue`s and early return. */
  method SelectAspectRatios(entries: seq<TechEntry>) returns (r: Scraped)
    ensures r == SelectRatios(entries)
  {
    var ratios: seq<string> := [];
    for i := 0 to |entries|
      invariant PrependAll(ratios, SelectRatios(entries[i..])) == SelectRatios(entries)
    {
      SelectRatiosStep(entries, i);
      var e := entries[i];
      if e.content.None? {
        continue;
      }
      var text := e.content.value;
      if text == [] {
        continue;
      }
      var parsed := ParseAspectRatio(text);
      if parsed.None? || parsed.value == 0 {
        continue;
      }
      var ratio := IntToString(parsed.value);
      if e.subText.Some? && e.subText.value == TheatricalTag {
        return Ratio(ratio);
      }
      PrependAllPrepend(ratios, ratio, SelectRatios(entries[i + 1..]));
      ratios := ratios + [ratio];
    }
    assert entries[|entries|..] == [];
    return Ratios(ratios);
  }

  // ---------------------------------------------------------------------------
  // getOriginalAspectRatio

  /** What the BeautifulSoup searches find on a fetched page: the href of the
      first search-result title link, the decoded aspect-ratio item of a title
      page, and the list entries of a technical page's aspect-ratio container
      (each `None` where the searched element is absent). */
  datatype Page = Page(
    titleHref: Option<string>,
    mainAspect: Option<string>,
    techEntries: Option<seq<TechEntry>>)

  function SearchUrl(title: string): string {
    BaseUrl + "/find/?q=" + title
  }

  function TitleUrl(number: string): string {
    BaseUrl + "/title/" + NormalizeImdbId(number) + "/"
  }

  function TechnicalUrl(number: string): string {
    BaseUrl + "/title/" + NormalizeImdbId(number) + "/technical/"
  }

  /** The href of the first title link on the search page for `title`, if
      the page was fetched and holds one. */
  function SearchLink(title: string, fetch: string -> Option<Page>): Option<string> {
    match fetch(SearchUrl(title))
    case None => None
    case Some(page) => page.titleHref
  }

  /** The title-page URL and the IMDb number known once it is found, or `None`
      when the lookup stops early (imdb.py:106-228). */
  function Locate(title: string, number: string, fetch: string -> Option<Page>): (r: Option<(string, string)>)
    ensures r.Some? ==> r.value.1 != []
    ensures number != [] ==> r == Some((TitleUrl(number), number))
    ensures number == [] ==>
      (r.Some? <==> title != [] && SearchLink(title, fetch).Some? && SearchLink(title, fetch).value != []
                    && HrefImdbNumber(SearchLink(title, fetch).value) != [])
    ensures number == [] && r.Some? ==>
      var href := SearchLink(title, fetch).value;
      r.value == (BaseUrl + TitlePath(href), HrefImdbNumber(href))
  {
    if number != [] then Some((TitleUrl(number), number))
    else if title == [] then None
    else match fetch(SearchUrl(title))
      case None => None
      case Some(page) =>
        match page.titleHref
        case None => None
        case Some(href) =>
          var n := HrefImdbNumber(href);
          if href == [] || n == [] then None
          else Some((BaseUrl + TitlePath(href), n))
  }

  /** A search whose first result links to "<prefix>/title/<id>/?<query>"
      locates the same title page, and the same number, as a lookup by `id`. */
  lemma SearchLinkLocatesTitle(title: string, prefix: string, id: string, query: string,
                               fetch: string -> Option<Page>)
    requires title != []
    requires prefix in {"", "/fr", "/en"}
    requires StartsWith(id, "tt") && '/' !in id && '?' !in id && '/' !in query
    requires SearchLink(title, fetch) == Some(prefix + "/title/" + id + "/?" + query)
    ensures Locate(title, [], fetch) == Some((TitleUrl(id), id))
    ensures Locate(title, [], fetch) == Locate([], id, fetch)
  {
    var href := prefix + "/title/" + id + "/?" + query;
    TitlePathOfLink(prefix, id, query);
    HrefNumberOfLink(prefix, id, query);
    LocateBySearch(title, href, fetch);
    TitleUrlOfId(id);
  }

  lemma TitleUrlOfId(id: string)
    requires StartsWith(id, "tt")
    ensures TitleUrl(id) == BaseUrl + ("/title/" + id + "/")
  {
    assert BaseUrl + ("/title/" + id + "/") == BaseUrl + "/title/" + id + "/";
  }

  lemma LocateBySearch(title: string, href: string, fetch: string -> Option<Page>)
    requires title != [] && SearchLink(title, fetch) == Some(href)
    requires href != [] && HrefImdbNumber(href) != []
    ensures Locate(title, [], fetch) == Some((BaseUrl + TitlePath(href), HrefImdbNumber(href)))
  {
  }

  /** The ratio read from the title page's aspect-ratio item, if any. */
  function MainRatio(page: Page): (r: Option<int>)
    ensures r.Some? ==> r.value != 0 && page.mainAspect.Some? && r == ParseAspectRatio(page.mainAspect.value)
  {
    match page.mainAspect
    case None => None
    case Some(text) => if text == [] then None else Truthy(ParseAspectRatio(text))
  }

  /** The result of the technical-page fallback (imdb.py:266-335). */
  function TechnicalFallback(number: string, fetch: string -> Option<Page>): Scraped {
    match fetch(TechnicalUrl(number))
    case None => NoRatio
    case Some(tech) =>
      match tech.techEntries
      case None => NoRatio
      case Some(entries) => if |entries| > 1 then SelectRatios(entries) else NoRatio
  }

  /** `getOriginalAspectRatio(title, imdb_number)` over the fetched pages. */
  function OriginalAspectRatio(title: string, number: string, fetch: string -> Option<Page>): Scraped {
    match Locate(title, number, fetch)
    case None => NoRatio
    case Some((url, n)) =>
      match fetch(url)
      case None => NoRatio
      case Some(page) =>
        match MainRatio(page)
        case Some(v) => Ratio(IntToString(v))
        case None => TechnicalFallback(n, fetch)
  }

  /** The first stage of `getOriginalAspectRatio` (imdb.py:106-231): the URL of
      the title page, either straight from the IMDb number or from the first
      search result, and the IMDb number then known. */
  method LocateTitlePage(title: string, number: string, fetch: string -> Option<Page>)
    returns (r: Option<(string, string)>)
    ensures r == Locate(title, number, fetch)
  {
    if number != [] {
      return Some((TitleUrl(number), number));
    }
    if title == [] {
      return None;
    }
    var searchPage := fetch(SearchUrl(title));
    if searchPage.None? {
      return None;
    }
    var titleUrl := searchPage.value.titleHref;
    if titleUrl.None? || titleUrl.value == [] {
      return None;
    }
    var imdbNumber := HrefImdbNumber(titleUrl.value);
    if imdbNumber == [] {
      return None;
    }
    var normalized := NormalizeTitleUrl(titleUrl.value);
    return Some((BaseUrl + normalized, imdbNumber));
  }

  /** The technical-page fallback (imdb.py:266-344): `NoRatio` when the page
      cannot be fetched, has no aspect-ratio container or lists at most one entry. */
  method FetchTechnicalRatios(number: string, fetch: string -> Option<Page>) returns (r: Scraped)
    ensures r == TechnicalFallback(number, fetch)
  {
    var techPage := fetch(TechnicalUrl(number));
    if techPage.None? || techPage.value.techEntries.None? {
      return NoRatio;
    }
    var entries := techPage.value.techEntries.value;
    if |entries| > 1 {
      r := SelectAspectRatios(entries);
      return r;
    }
    return NoRatio;
  }

  /** `getOriginalAspectRatio(title, imdb_number)` as the code performs it. */
  method GetOriginalAspectRatio(title: string, number: string, fetch: string -> Option<Page>)
    returns (r: Scraped)
    ensures r == OriginalAspectRatio(title, number, fetch)
  {
    var located := LocateTitlePage(title, number, fetch);
    if located.None? {
      return NoRatio;
    }
    var (url, imdbNumber) := located.value;
    var titlePage := fetch(url);
    if titlePage.None? {
      return NoRatio;
    }
    var aspectRatio := MainRatio(titlePage.value);
    if aspectRatio.None? && imdbNumber != [] {
      r := FetchTechnicalRatios(imdbNumber, fetch);
      return r;
    }
    if aspectRatio.Some? {
      return Ratio(IntToString(aspectRatio.value));
    }
    return NoRatio;
  }

  /** A ratio text as the scraper writes it: `str(n)` of a non-zero `n`. */
  predicate RatioText(t: string) {
    ParseInt(t).Some? && ParseInt(t).value != 0 && IntToString(ParseInt(t).value) == t
  }

  /** Every text in a result is a ratio text. */
  predicate RatioTexts(r: Scraped) {
    match r
    case NoRatio => true
    case Ratio(t) => RatioText(t)
    case Ratios(ts) => forall i :: 0 <= i < |ts| ==> RatioText(ts[i])
  }

  lemma RatioTextOf(v: int)
    requires v != 0
    ensures RatioText(IntToString(v))
  {
    ParseIntToString(v);
  }

  /** The choice among technical entries only yields ratio texts. */
  lemma SelectRatiosTexts(entries: seq<TechEntry>)
    ensures RatioTexts(SelectRatios(entries))
  {
    SelectRatiosTextsFrom(entries, 0);
    assert entries[0..] == entries;
  }

  lemma {:induction false} SelectRatiosTextsFrom(entries: seq<TechEntry>, i: nat)
    requires i <= |entries|
    ensures RatioTexts(SelectRatios(entries[i..]))
    decreases |entries| - i
  {
    if i < |entries| {
      SelectRatiosStep(entries, i);
      SelectRatiosTextsFrom(entries, i + 1);
      match EntryRatio(entries[i])
      case None =>
      case Some(v) =>
        RatioTextOf(v);
        PrependTexts(IntToString(v), SelectRatios(entries[i + 1..]));
    }
  }

  lemma PrependTexts(t: string, r: Scraped)
    requires RatioText(t) && RatioTexts(r)
    ensures RatioTexts(Prepend(t, r))
  {
    if r.Ratios? {
      var ts := [t] + r.texts;
      forall i | 0 <= i < |ts|
        ensures RatioText(ts[i])
      {
        if i > 0 {
          assert ts[i] == r.texts[i - 1];
        }
      }
    }
  }

  /** `getOriginalAspectRatio` only ever returns ratio texts. */
  lemma OriginalAspectRatioTexts(title: string, number: string, fetch: string -> Option<Page>)
    ensures RatioTexts(OriginalAspectRatio(title, number, fetch))
  {
    match Locate(title, number, fetch)
    case None =>
    case Some((url, n)) =>
      match fetch(url)
      case None =>
      case Some(page) =>
        match MainRatio(page)
        case Some(v) => RatioTextOf(v);
        case None =>
          match fetch(TechnicalUrl(n))
          case None =>
          case Some(tech) =>
            match tech.techEntries
            case None =>
            case Some(entries) => SelectRatiosTexts(entries);
  }

  /** With neither an IMDb number nor a title nothing is fetched and nothing found. */
  lemma NoNumberNoTitle(fetch: string -> Option<Page>)
    ensures OriginalAspectRatio([], [], fetch) == NoRatio
  {
  }

  /** A known IMDb number decides the page; the title is then irrelevant. */
  lemma NumberWinsOverTitle(t1: string, t2: string, number: string, fetch: string -> Option<Page>)
    requires number != []
    ensures OriginalAspectRatio(t1, number, fetch) == OriginalAspectRatio(t2, number, fetch)
  {
  }

  /** A ratio on the title page is returned as is; the technical page is not consulted. */
  lemma MainRatioWins(title: string, number: string, fetch: string -> Option<Page>, v: int)
    requires Locate(title, number, fetch).Some?
    requires var url := Locate(title, number, fetch).value.0;
             fetch(url).Some? && MainRatio(fetch(url).value) == Some(v)
    ensures OriginalAspectRatio(title, number, fetch) == Ratio(IntToString(v))
  {
  }

  /** A list result only ever comes from a technical page with more than one entry. */
  lemma RatiosOnlyFromTechnicalPage(title: string, number: string, fetch: string -> Option<Page>)
    requires OriginalAspectRatio(title, number, fetch).Ratios?
    ensures var (url, n) := Locate(title, number, fetch).value;
            && fetch(url).Some? && MainRatio(fetch(url).value) == None
            && fetch(TechnicalUrl(n)).Some?
            && fetch(TechnicalUrl(n)).value.techEntries.Some?
            && |fetch(TechnicalUrl(n)).value.techEntries.value| > 1
  {
  }
}
