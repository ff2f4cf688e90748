/**
 * The Shanghai Fantasy source adapter: the normalisation it applies to the
 * site's JSON listings and chapter lists, the recovery of a novel's numeric
 * category id from its page, and the rules that fill in a novel's details.
 * Requests, headers and HTML selector evaluation are outside the model: their
 * results arrive here as values.
 */
module ShanghaiFantasy {
  import opened Wrappers
  import opened JsString
  import opened Api

  /** The site origin every request is made against. */
  const Site: string := "https://shanghaifantasy.com"

  /** Stand-in for the host application's default cover asset; only its being non-empty matters. */
  const DefaultCover: string := "default-cover"

  const Untitled: string := "Untitled"

  datatype NovelItem = NovelItem(name: string, cover: string, path: string)

  datatype ChapterItem = ChapterItem(name: string, path: string, chapterNumber: nat, releaseTime: string)

  datatype NovelStatus = Unknown | Ongoing | Completed | OnHiatus

  // ================================================================ URLs

  /** `resolveUrl`: the absolute address of a site-relative path. */
  function ResolveUrl(path: string): string
  {
    Site + path
  }

  /** `link.replace(this.site, '')`: removes the first occurrence of the origin only. */
  function StripOrigin(link: string): (path: string)
    ensures !Contains(link, Site) ==> path == link
    ensures Contains(link, Site) ==> |path| == |link| - |Site|
  {
    ReplaceFirst(link, Site, "")
  }

  /** A link on the site loses exactly its origin, and resolving the path gives the link back. */
  lemma ResolveAfterStrip(link: string)
    requires StartsWith(link, Site)
    ensures StripOrigin(link) == link[|Site|..]
    ensures ResolveUrl(StripOrigin(link)) == link
  {
    assert OccursAt(link, Site, 0);
    assert IndexOf(link, Site) == Some(0);
    assert link == link[..|Site|] + link[|Site|..];
  }

  /**
   * Only the first occurrence is removed: a later, non-overlapping occurrence
   * of the origin is still in the path, shifted left by the origin's length.
   */
  lemma StripOriginKeepsLaterOrigin(link: string, j: nat)
    requires OccursAt(link, Site, j)
    requires IndexOf(link, Site).Some? && IndexOf(link, Site).value + |Site| <= j
    ensures OccursAt(StripOrigin(link), Site, j - |Site|)
  {
    ReplaceFirstKeepsLater(link, Site, j);
  }

  // ================================================================ getNovelId

  const DataCatPrefix: string := "data-cat="

  predicate IsQuote(c: char) { c == '"' || c == '\'' }

  /** `/data-cat=["'](\d+)["']/` matches at index `i` with capture group `d`. */
  ghost predicate DataCatMatch(html: string, i: nat, d: string) {
    var q := i + |DataCatPrefix|;
    q + |d| + 2 <= |html|
    && html[i..q] == DataCatPrefix
    && IsQuote(html[q])
    && d != [] && AllDigits(d) && html[q + 1..q + 1 + |d|] == d
    && IsQuote(html[q + 1 + |d|])
  }

  /** `/[?&]p=(\d+)/` matches at index `i` with capture group `d` (greedy, so the run of digits is maximal). */
  ghost predicate ShortlinkMatch(html: string, i: nat, d: string) {
    i + 3 + |d| <= |html|
    && (html[i] == '?' || html[i] == '&') && html[i + 1] == 'p' && html[i + 2] == '='
    && d != [] && AllDigits(d) && html[i + 3..i + 3 + |d|] == d
    && (i + 3 + |d| == |html| || !IsDigit(html[i + 3 + |d|]))
  }

  /** The leftmost data-cat match, the one `String.prototype.match` reports. */
  ghost predicate FirstDataCat(html: string, i: nat, d: string) {
    DataCatMatch(html, i, d) && forall j: nat, e :: j < i ==> !DataCatMatch(html, j, e)
  }

  /** The leftmost shortlink match. */
  ghost predicate FirstShortlink(html: string, i: nat, d: string) {
    ShortlinkMatch(html, i, d) && forall j: nat, e :: j < i ==> !ShortlinkMatch(html, j, e)
  }

  /** The length of the run of digits starting at index `j`. */
  function DigitRun(s: string, j: nat): (n: nat)
    requires j <= |s|
    decreases |s| - j
    ensures j + n <= |s| && AllDigits(s[j..j + n])
    ensures j + n == |s| || !IsDigit(s[j + n])
  {
    if j < |s| && IsDigit(s[j]) then
      var n := 1 + DigitRun(s, j + 1);
      assert s[j..j + n] == [s[j]] + s[j + 1..j + n];
      n
    else 0
  }

  /** A run of digits that is followed by a non-digit is the whole run. */
  lemma {:induction false} DigitRunUnique(s: string, j: nat, m: nat)
    requires j + m <= |s| && AllDigits(s[j..j + m])
    requires j + m == |s| || !IsDigit(s[j + m])
    ensures DigitRun(s, j) == m
    decreases m
  {
    if m > 0 {
      assert IsDigit(s[j..j + m][0]);
      assert s[j + 1..j + m] == s[j..j + m][1..];
      DigitRunUnique(s, j + 1, m - 1);
    }
  }

  /** A data-cat capture is the whole run of digits after the opening quote. */
  lemma DataCatIsDigitRun(html: string, i: nat, d: string)
    requires DataCatMatch(html, i, d)
    ensures |d| == DigitRun(html, i + |DataCatPrefix| + 1)
  {
    DigitRunUnique(html, i + |DataCatPrefix| + 1, |d|);
  }

  /** A shortlink capture is the whole run of digits after `p=`. */
  lemma ShortlinkIsDigitRun(html: string, i: nat, d: string)
    requires ShortlinkMatch(html, i, d)
    ensures |d| == DigitRun(html, i + 3)
  {
    DigitRunUnique(html, i + 3, |d|);
  }

  /** `data-cat=` and an opening quote start at index `i`. */
  predicate DataCatOpens(html: string, i: nat) {
    i + |DataCatPrefix| < |html| && html[i..i + |DataCatPrefix|] == DataCatPrefix && IsQuote(html[i + |DataCatPrefix|])
  }

  /** Without the opening `data-cat=` and quote there is no match at `i`. */
  lemma DataCatNeedsOpening(html: string, i: nat)
    requires !DataCatOpens(html, i)
    ensures forall e :: !DataCatMatch(html, i, e)
  {
  }

  /** After the opening, a match needs a non-empty digit run closed by a quote. */
  lemma DataCatNeedsClosing(html: string, i: nat)
    requires DataCatOpens(html, i)
    ensures var q := i + |DataCatPrefix|;
      var n := DigitRun(html, q + 1);
      forall e :: DataCatMatch(html, i, e) ==>
        (n > 0 && q + 1 + n < |html| && IsQuote(html[q + 1 + n]) && e == html[q + 1..q + 1 + n])
  {
    var q := i + |DataCatPrefix|;
    var n := DigitRun(html, q + 1);
    forall e | DataCatMatch(html, i, e)
      ensures n > 0 && q + 1 + n < |html| && IsQuote(html[q + 1 + n]) && e == html[q + 1..q + 1 + n]
    {
      DataCatIsDigitRun(html, i, e);
      assert n == |e|;
    }
  }

  /** The capture of the data-cat pattern when it matches at index `i`. */
  function DataCatAt(html: string, i: nat): (d: Option<string>)
    ensures d.Some? ==> DataCatMatch(html, i, d.value)
    ensures d.None? ==> forall e :: !DataCatMatch(html, i, e)
  {
    if DataCatOpens(html, i) then
      var q := i + |DataCatPrefix|;
      var n := DigitRun(html, q + 1);
      DataCatNeedsClosing(html, i);
      if n > 0 && q + 1 + n < |html| && IsQuote(html[q + 1 + n]) then Some(html[q + 1..q + 1 + n])
      else None
    else
      DataCatNeedsOpening(html, i);
      None
  }

  /** `?p=` or `&p=` starts at index `i`. */
  predicate ShortlinkOpens(html: string, i: nat) {
    i + 3 <= |html| && (html[i] == '?' || html[i] == '&') && html[i + 1] == 'p' && html[i + 2] == '='
  }

  /** After `?p=`, a match needs a non-empty digit run, and captures all of it. */
  lemma ShortlinkNeedsDigits(html: string, i: nat)
    requires ShortlinkOpens(html, i)
    ensures var n := DigitRun(html, i + 3);
      forall e :: ShortlinkMatch(html, i, e) ==> (n > 0 && e == html[i + 3..i + 3 + n])
  {
    forall e | ShortlinkMatch(html, i, e)
      ensures DigitRun(html, i + 3) == |e|
    {
      ShortlinkIsDigitRun(html, i, e);
    }
  }

  /** The capture of the shortlink pattern when it matches at index `i`. */
  function ShortlinkAt(html: string, i: nat): (d: Option<string>)
    ensures d.Some? ==> ShortlinkMatch(html, i, d.value)
    ensures d.None? ==> forall e :: !ShortlinkMatch(html, i, e)
  {
    if ShortlinkOpens(html, i) then
      var n := DigitRun(html, i + 3);
      ShortlinkNeedsDigits(html, i);
      if n > 0 then Some(html[i + 3..i + 3 + n]) else None
    else None
  }

  /** Where a pattern matched and what its capture group holds. */
  datatype Capture = Capture(at: nat, digits: string)

  /** The leftmost data-cat match at or after `from`. */
  function FindDataCat(html: string, from: nat): (c: Option<Capture>)
    decreases |html| - from
    ensures c.Some? ==> from <= c.value.at && DataCatMatch(html, c.value.at, c.value.digits)
    ensures forall j: nat, e :: from <= j && (c.None? || j < c.value.at) ==> !DataCatMatch(html, j, e)
  {
    if from > |html| then None
    else
      match DataCatAt(html, from)
      case Some(d) => Some(Capture(from, d))
      case None => FindDataCat(html, from + 1)
  }

  /** The leftmost shortlink match at or after `from`. */
  function FindShortlink(html: string, from: nat): (c: Option<Capture>)
    decreases |html| - from
    ensures c.Some? ==> from <= c.value.at && ShortlinkMatch(html, c.value.at, c.value.digits)
    ensures forall j: nat, e :: from <= j && (c.None? || j < c.value.at) ==> !ShortlinkMatch(html, j, e)
  {
    if from > |html| then None
    else
      match ShortlinkAt(html, from)
      case Some(d) => Some(Capture(from, d))
      case None => FindShortlink(html, from + 1)
  }

  /**
   * `getNovelId`: the digits of the first `data-cat="…"` attribute, else those
   * of the first `?p=…`/`&p=…` shortlink, else nothing.
   */
  function GetNovelId(html: string): (id: Option<string>)
    ensures id.Some? ==> id.value != [] && AllDigits(id.value)
    ensures id.Some? ==> exists i: nat :: DataCatMatch(html, i, id.value) || ShortlinkMatch(html, i, id.value)
  {
    match FindDataCat(html, 0)
    case Some(c) => Some(c.digits)
    case None =>
      match FindShortlink(html, 0)
      case Some(c) => Some(c.digits)
      case None => None
  }

  lemma DataCatUnique(html: string, i: nat, d: string, e: string)
    requires DataCatMatch(html, i, d) && DataCatMatch(html, i, e)
    ensures d == e
  {
    DataCatIsDigitRun(html, i, d);
    DataCatIsDigitRun(html, i, e);
  }

  lemma ShortlinkUnique(html: string, i: nat, d: string, e: string)
    requires ShortlinkMatch(html, i, d) && ShortlinkMatch(html, i, e)
    ensures d == e
  {
    ShortlinkIsDigitRun(html, i, d);
    ShortlinkIsDigitRun(html, i, e);
  }

  /** A data-cat attribute wins over any shortlink: the first one's digits are the id. */
  lemma GetNovelIdPrefersDataCat(html: string, i: nat, d: string)
    requires FirstDataCat(html, i, d)
    ensures GetNovelId(html) == Some(d)
  {
    var c := FindDataCat(html, 0);
    assert c.Some?;
    assert !(c.value.at < i);
    assert !(i < c.value.at);
    DataCatUnique(html, i, d, c.value.digits);
  }

  /** Without any data-cat attribute, the first shortlink's digits are the id. */
  lemma GetNovelIdFallsBackToShortlink(html: string, i: nat, d: string)
    requires forall j: nat, e :: !DataCatMatch(html, j, e)
    requires FirstShortlink(html, i, d)
    ensures GetNovelId(html) == Some(d)
  {
    assert FindDataCat(html, 0).None?;
    var c := FindShortlink(html, 0);
    assert c.Some?;
    assert !(c.value.at < i);
    assert !(i < c.value.at);
    ShortlinkUnique(html, i, d, c.value.digits);
  }

  /** There is no id exactly when neither pattern occurs anywhere. */
  lemma GetNovelIdNull(html: string)
    ensures GetNovelId(html).None? <==>
      (forall j: nat, e :: !DataCatMatch(html, j, e)) && (forall j: nat, e :: !ShortlinkMatch(html, j, e))
  {
    if GetNovelId(html).None? {
      assert FindDataCat(html, 0).None?;
      assert FindShortlink(html, 0).None?;
    }
  }

  // ================================================================ stripHtml

  /** What `[^>]*>?` leaves after an opening `<`: everything past the next `>`, or nothing. */
  function SkipTag(s: string): (r: string)
    ensures |r| <= |s| && r == s[|s| - |r|..]
  {
    if s == [] then []
    else if s[0] == '>' then s[1..]
    else SkipTag(s[1..])
  }

  /** `html.replace(/<[^>]*>?/gm, '')`. */
  function RemoveTags(s: string): (r: string)
    decreases |s|
    ensures '<' !in r
    ensures multiset(r) <= multiset(s)
    ensures '<' !in s ==> r == s
  {
    if s == [] then []
    else if s[0] == '<' then
      var rest := SkipTag(s[1..]);
      var r := RemoveTags(rest);
      assert s == s[..|s| - |rest|] + rest;
      r
    else
      assert s == [s[0]] + s[1..];
      [s[0]] + RemoveTags(s[1..])
  }

  /** A tag at the very start is dropped through its closing `>`. */
  lemma RemoveTagsAtTag(tag: string, rest: string)
    requires '>' !in tag
    ensures RemoveTags(['<'] + tag + ['>'] + rest) == RemoveTags(rest)
  {
    var s := ['<'] + tag + ['>'] + rest;
    assert s[0] == '<';
    assert s[1..] == tag + ['>'] + rest;
    SkipTagPassesTag(tag, rest);
  }

  /** Text without a `<` passes through unchanged, whatever follows it. */
  lemma {:induction false} RemoveTagsKeepsText(text: string, after: string)
    requires '<' !in text
    ensures RemoveTags(text + after) == text + RemoveTags(after)
  {
    if text != [] {
      assert text + after == [text[0]] + (text[1..] + after);
      RemoveTagsCons(text[0], text[1..] + after);
      RemoveTagsKeepsText(text[1..], after);
      assert text == [text[0]] + text[1..];
    } else {
      assert text + after == after;
    }
  }

  /** Text before a tag is kept, the tag itself (through its `>`) is dropped. */
  lemma RemoveTagsDropsTag(text: string, tag: string, rest: string)
    requires '<' !in text && '>' !in tag
    ensures RemoveTags(text + ['<'] + tag + ['>'] + rest) == text + RemoveTags(rest)
  {
    var t := ['<'] + tag + ['>'] + rest;
    calc {
      RemoveTags(text + ['<'] + tag + ['>'] + rest);
      { assert text + ['<'] + tag + ['>'] + rest == text + t; }
      RemoveTags(text + t);
      { RemoveTagsKeepsText(text, t); }
      text + RemoveTags(t);
      { RemoveTagsAtTag(tag, rest); }
      text + RemoveTags(rest);
    }
  }

  /** An unclosed `<` (no `>` after it) consumes the rest of the input, since the `>` of `<[^>]*>?` is optional. */
  lemma {:induction false} SkipTagNoClose(tail: string)
    requires '>' !in tail
    ensures SkipTag(tail) == []
  {
    if tail != [] {
      assert tail[0] in tail;
      assert forall c :: c in tail[1..] ==> c in tail;
      SkipTagNoClose(tail[1..]);
    }
  }

  /** `text<tail` with no `>` in the tail strips to `text`: everything from the unclosed `<` on is lost. */
  lemma RemoveTagsUnclosed(text: string, tail: string)
    requires '<' !in text && '>' !in tail
    ensures RemoveTags(text + ['<'] + tail) == text
  {
    var t := ['<'] + tail;
    assert text + ['<'] + tail == text + t;
    RemoveTagsKeepsText(text, t);
    assert t[1..] == tail;
    SkipTagNoClose(tail);
    assert RemoveTags(t) == RemoveTags([]);
  }

  lemma RemoveTagsCons(c: char, s: string)
    requires c != '<'
    ensures RemoveTags([c] + s) == [c] + RemoveTags(s)
  {
    assert ([c] + s)[1..] == s;
  }

  lemma {:induction false} SkipTagPassesTag(tag: string, rest: string)
    requires '>' !in tag
    ensures SkipTag(tag + ['>'] + rest) == rest
  {
    if tag != [] {
      assert (tag + ['>'] + rest)[1..] == tag[1..] + ['>'] + rest;
      SkipTagPassesTag(tag[1..], rest);
    } else {
      assert (tag + ['>'] + rest)[1..] == rest;
    }
  }

  /** `stripHtml`: tags removed, then trimmed. */
  function StripHtml(html: string): (text: string)
    ensures '<' !in text
    ensures '<' !in html ==> text == Trim(html)
  {
    var r := RemoveTags(html);
    var t := Trim(r);
    TrimSpec(r);
    assert forall k :: 0 <= k < |t| ==> t[k] == r[TrimOffset(r) + k];
    t
  }

  // ================================================================ listings

  /** One record of the popular listing: kept when it has a title. */
  function PopularEntry(novel: ApiNovel): (item: Option<NovelItem>)
    ensures item.Some? <==> Truthy(novel.title)
    ensures item.Some? ==> item.value.name == novel.title.value && item.value.name != ""
    ensures item.Some? ==> item.value.cover != ""
    ensures item.Some? && !Truthy(novel.permalink) ==> item.value.path == ""
  {
    FirstTruthyOfTwo(novel.novelImage, novel.thumbnail);
    FirstTruthyOfOne(novel.permalink);
    if Truthy(novel.title) then
      Some(NovelItem(
        novel.title.value,
        FirstTruthy([novel.novelImage, novel.thumbnail]).GetOr(DefaultCover),
        StripOrigin(FirstTruthy([novel.permalink]).GetOr(""))))
    else None
  }

  /** One record of a search: kept when both a title and a link resolve. */
  function SearchEntry(novel: ApiNovel): (item: Option<NovelItem>)
    ensures item.Some? <==>
      (Truthy(novel.title) || Truthy(novel.post_title) || Truthy(novel.name))
      && (Truthy(novel.permalink) || Truthy(novel.link) || Truthy(novel.url))
    ensures item.Some? ==> item.value.name != "" && item.value.cover != ""
  {
    var title := FirstTruthy([novel.title, novel.post_title, novel.name]);
    var cover := FirstTruthy([novel.novelImage, novel.thumbnail, novel.image]).GetOr(DefaultCover);
    var link := FirstTruthy([novel.permalink, novel.link, novel.url]);
    FirstTruthyOfThree(novel.title, novel.post_title, novel.name);
    FirstTruthyOfThree(novel.permalink, novel.link, novel.url);
    if title.Some? && link.Some? then Some(NovelItem(title.value, cover, StripOrigin(link.value)))
    else None
  }

  /** The fallback chains of a listed novel, field by field. */
  lemma ListingFields(novel: ApiNovel)
    ensures PopularEntry(novel).Some? ==>
      PopularEntry(novel).value.cover ==
        (if Truthy(novel.novelImage) then novel.novelImage.value
         else if Truthy(novel.thumbnail) then novel.thumbnail.value
         else DefaultCover)
      && PopularEntry(novel).value.path == StripOrigin(if Truthy(novel.permalink) then novel.permalink.value else "")
    ensures SearchEntry(novel).Some? ==>
      SearchEntry(novel).value.name ==
        (if Truthy(novel.title) then novel.title.value
         else if Truthy(novel.post_title) then novel.post_title.value
         else novel.name.value)
      && SearchEntry(novel).value.cover ==
        (if Truthy(novel.novelImage) then novel.novelImage.value
         else if Truthy(novel.thumbnail) then novel.thumbnail.value
         else if Truthy(novel.image) then novel.image.value
         else DefaultCover)
      && SearchEntry(novel).value.path == StripOrigin(
        if Truthy(novel.permalink) then novel.permalink.value
        else if Truthy(novel.link) then novel.link.value
        else novel.url.value)
  {
    FirstTruthyOfOne(novel.permalink);
    FirstTruthyOfTwo(novel.novelImage, novel.thumbnail);
    FirstTruthyOfThree(novel.title, novel.post_title, novel.name);
    FirstTruthyOfThree(novel.novelImage, novel.thumbnail, novel.image);
    FirstTruthyOfThree(novel.permalink, novel.link, novel.url);
  }

  /** A listed novel whose permalink is on the site resolves back to that permalink. */
  lemma ListedPathResolves(novel: ApiNovel)
    requires Truthy(novel.permalink) && StartsWith(novel.permalink.value, Site)
    ensures PopularEntry(novel).Some? ==> ResolveUrl(PopularEntry(novel).value.path) == novel.permalink.value
    ensures SearchEntry(novel).Some? ==> ResolveUrl(SearchEntry(novel).value.path) == novel.permalink.value
  {
    ListingFields(novel);
    ResolveAfterStrip(novel.permalink.value);
  }

  /** `popularNovels`, from the decoded response on. */
  method PopularNovels(response: Payload<ApiNovel>) returns (novels: seq<NovelItem>)
    ensures novels == FilterMap(Items(response), PopularEntry)
  {
    novels := [];
    var list := Items(response);
    var i := 0;
    while i < |list|
      invariant 0 <= i <= |list|
      invariant novels == FilterMap(list[..i], PopularEntry)
    {
      var novel := list[i];
      FilterMapSnoc(list, i, PopularEntry);
      if Truthy(novel.title) {
        novels := novels + [NovelItem(
          novel.title.value,
          FirstTruthy([novel.novelImage, novel.thumbnail]).GetOr(DefaultCover),
          StripOrigin(FirstTruthy([novel.permalink]).GetOr("")))];
      }
      i := i + 1;
    }
    assert list[..|list|] == list;
  }

  /** `searchNovels`, from the decoded response on. */
  method SearchNovels(response: Payload<ApiNovel>) returns (novels: seq<NovelItem>)
    ensures novels == FilterMap(Items(response), SearchEntry)
  {
    novels := [];
    var list := Items(response);
    var i := 0;
    while i < |list|
      invariant 0 <= i <= |list|
      invariant novels == FilterMap(list[..i], SearchEntry)
    {
      var novel := list[i];
      FilterMapSnoc(list, i, SearchEntry);
      var title := FirstTruthy([novel.title, novel.post_title, novel.name]);
      var cover := FirstTruthy([novel.novelImage, novel.thumbnail, novel.image]).GetOr(DefaultCover);
      var link := FirstTruthy([novel.permalink, novel.link, novel.url]);
      if title.Some? && link.Some? {
        novels := novels + [NovelItem(title.value, cover, StripOrigin(link.value))];
      }
      i := i + 1;
    }
    assert list[..|list|] == list;
  }

  // ================================================================ chapters

  /** A chapter record has a link when any of `permalink`, `url`, `link` is non-empty. */
  predicate HasLink(chap: ApiChapter) {
    Truthy(chap.permalink) || Truthy(chap.url) || Truthy(chap.link)
  }

  /** The title synthesised for an untitled chapter: `Chapter ${index + 1}`. */
  function ChapterLabel(number: nat): string {
    "Chapter " + NatToString(number)
  }

  /** The chapter at position `index` of the response, or nothing when it has no link. */
  function ChapterEntry(chap: ApiChapter, index: nat): (c: Option<ChapterItem>)
    ensures c.Some? <==> HasLink(chap)
    ensures c.Some? ==> c.value.chapterNumber == index + 1 && c.value.name != ""
  {
    var link := FirstTruthy([chap.permalink, chap.url, chap.link]);
    FirstTruthyOfThree(chap.permalink, chap.url, chap.link);
    if link.Some? then
      Some(ChapterItem(
        FirstTruthy([chap.post_title, chap.title]).GetOr(ChapterLabel(index + 1)),
        StripOrigin(link.value),
        index + 1,
        FirstTruthy([chap.post_date, chap.date]).GetOr("")))
    else None
  }

  /**
   * The chapter list built from the response records: each linked record at
   * position `i` becomes chapter number `i + 1`; records without a link are
   * dropped and the others are not renumbered.
   */
  function ChapterList(list: seq<ApiChapter>): (chapters: seq<ChapterItem>)
    ensures |chapters| <= |list|
  {
    if list == [] then []
    else
      var n := |list| - 1;
      ChapterList(list[..n]) + (match ChapterEntry(list[n], n) case Some(c) => [c] case None => [])
  }

  /** The chapter list of a non-empty response is that of all records but the last, then the last one's entry. */
  lemma ChapterListSnoc(list: seq<ApiChapter>)
    requires list != []
    ensures ChapterList(list) ==
      ChapterList(list[..|list| - 1]) + (match ChapterEntry(list[|list| - 1], |list| - 1) case Some(c) => [c] case None => [])
  {
  }

  /** Chapter numbers strictly increase along the list. */
  lemma {:induction false} ChapterListIncreasing(list: seq<ApiChapter>)
    ensures var chapters := ChapterList(list);
      forall k, m :: 0 <= k < m < |chapters| ==> chapters[k].chapterNumber < chapters[m].chapterNumber
  {
    if list != [] {
      var n := |list| - 1;
      var prefix := ChapterList(list[..n]);
      var chapters := ChapterList(list);
      ChapterListSnoc(list);
      ChapterListIncreasing(list[..n]);
      ChapterListEntries(list[..n]);
      forall k, m | 0 <= k < m < |chapters|
        ensures chapters[k].chapterNumber < chapters[m].chapterNumber
      {
        assert chapters[k] == prefix[k];
        if m < |prefix| {
          assert chapters[m] == prefix[m];
        } else {
          assert chapters[m] == ChapterEntry(list[n], n).value;
        }
      }
    }
  }

  /** Every chapter number lies in 1..|list|, and each chapter is the entry of the record at position `chapterNumber - 1`. */
  lemma {:induction false} ChapterListEntries(list: seq<ApiChapter>)
    ensures var chapters := ChapterList(list);
      forall k :: 0 <= k < |chapters| ==>
        1 <= chapters[k].chapterNumber <= |list| &&
        ChapterEntry(list[chapters[k].chapterNumber - 1], chapters[k].chapterNumber - 1) == Some(chapters[k])
  {
    if list != [] {
      var n := |list| - 1;
      var init := list[..n];
      var prefix := ChapterList(init);
      var chapters := ChapterList(list);
      ChapterListSnoc(list);
      ChapterListEntries(init);
      forall k | 0 <= k < |chapters|
        ensures 1 <= chapters[k].chapterNumber <= |list|
        ensures ChapterEntry(list[chapters[k].chapterNumber - 1], chapters[k].chapterNumber - 1) == Some(chapters[k])
      {
        if k < |prefix| {
          assert chapters[k] == prefix[k];
          assert list[prefix[k].chapterNumber - 1] == init[prefix[k].chapterNumber - 1];
        } else {
          assert chapters[k] == ChapterEntry(list[n], n).value;
        }
      }
    }
  }

  /** A record is kept, under its own number, exactly when it has a link. */
  lemma {:induction false} ChapterListKeepsExactlyLinked(list: seq<ApiChapter>, i: nat)
    requires i < |list|
    ensures HasLink(list[i]) <==> exists k :: 0 <= k < |ChapterList(list)| && ChapterList(list)[k].chapterNumber == i + 1
  {
    var chapters := ChapterList(list);
    var n := |list| - 1;
    var init := list[..n];
    ChapterListSnoc(list);
    if HasLink(list[i]) {
      if i == n {
        var k := |ChapterList(init)|;
        assert chapters[k] == ChapterEntry(list[n], n).value;
      } else {
        assert init[i] == list[i];
        ChapterListKeepsExactlyLinked(init, i);
        var k :| 0 <= k < |ChapterList(init)| && ChapterList(init)[k].chapterNumber == i + 1;
        assert chapters[k] == ChapterList(init)[k];
      }
    } else {
      ChapterListEntries(list);
    }
  }

  /** The fallbacks of one kept chapter, field by field. */
  lemma ChapterEntryFields(chap: ApiChapter, index: nat)
    requires HasLink(chap)
    ensures ChapterEntry(chap, index).value.name ==
      if Truthy(chap.post_title) then chap.post_title.value
      else if Truthy(chap.title) then chap.title.value
      else ChapterLabel(index + 1)
    ensures ChapterEntry(chap, index).value.path == StripOrigin(
      if Truthy(chap.permalink) then chap.permalink.value
      else if Truthy(chap.url) then chap.url.value
      else chap.link.value)
    ensures ChapterEntry(chap, index).value.releaseTime ==
      if Truthy(chap.post_date) then chap.post_date.value
      else if Truthy(chap.date) then chap.date.value
      else ""
  {
    FirstTruthyOfTwo(chap.post_title, chap.title);
    FirstTruthyOfThree(chap.permalink, chap.url, chap.link);
    FirstTruthyOfTwo(chap.post_date, chap.date);
  }

  // ================================================================ parseNovel

  /** A `span.font-bold` label on the novel page and the text of its parent element. */
  datatype BoldSpan = BoldSpan(text: string, parentText: string)

  /** What the selectors of `parseNovel` extract from the novel page, plus the raw page. */
  datatype NovelPage = NovelPage(
    html: string,                  // the raw page, scanned for the category id
    titleText: string,             // text of `p.text-lg.font-bold` ("" when absent)
    ogTitle: Option<string>,       // `content` of the `og:title` meta tag
    coverSrc: Option<string>,      // `src` of the cover image
    boldSpans: seq<BoldSpan>,      // every `span.font-bold`, in document order
    statusText: string,            // text of the links whose href contains "status"
    genreTexts: seq<string>,       // text of each link whose href contains "genre"
    synopsis: Option<seq<string>>, // paragraph texts of the Synopsis panel, when the panel exists
    ogDescription: Option<string>) // `content` of the `og:description` meta tag

  /** The novel's name: the trimmed title text, else the `og:title` content, else "Untitled". */
  function NameOf(page: NovelPage): (name: string)
    ensures name != ""
    ensures Trim(page.titleText) != "" ==> name == Trim(page.titleText)
    ensures Trim(page.titleText) == "" && Truthy(page.ogTitle) ==> name == page.ogTitle.value
    ensures Trim(page.titleText) == "" && !Truthy(page.ogTitle) ==> name == Untitled
  {
    FirstTruthyOfTwo(Some(Trim(page.titleText)), page.ogTitle);
    FirstTruthy([Some(Trim(page.titleText)), page.ogTitle]).GetOr(Untitled)
  }

  /** The cover: the image source when the page has a non-empty one, else the default cover. */
  function CoverOf(page: NovelPage): (cover: string)
    ensures cover != ""
  {
    if Truthy(page.coverSrc) then page.coverSrc.value else DefaultCover
  }

  predicate IsAuthorLabel(span: BoldSpan) {
    Contains(Trim(span.text), "Author")
  }

  /** The parent's text with the label removed once, trimmed. */
  function LabelValue(span: BoldSpan): string {
    Trim(ReplaceFirst(span.parentText, Trim(span.text), ""))
  }

  /** The author: the value of the last label mentioning "Author", since each such label overwrites it. */
  function AuthorOf(spans: seq<BoldSpan>): Option<string>
  {
    LastMatch(spans, IsAuthorLabel, LabelValue)
  }

  /** The author is the value of the last label that mentions "Author"; without one there is none. */
  lemma AuthorIsLastLabel(spans: seq<BoldSpan>, k: nat)
    requires k < |spans| && IsAuthorLabel(spans[k])
    requires forall m :: k < m < |spans| ==> !IsAuthorLabel(spans[m])
    ensures AuthorOf(spans) == Some(LabelValue(spans[k]))
  {
    LastMatchIsLast(spans, IsAuthorLabel, LabelValue, k);
  }

  /** Status from the status link's text, by keyword, with priority ongoing > completed > hiatus. */
  function StatusOf(statusText: string): NovelStatus
  {
    var t := ToLower(Trim(statusText));
    if Contains(t, "ongoing") then Ongoing
    else if Contains(t, "completed") then Completed
    else if Contains(t, "hiatus") then OnHiatus
    else Unknown
  }

  /** The keywords are whitespace-free, so trimming never changes the classification. */
  lemma StatusByKeyword(statusText: string)
    ensures var t := ToLower(statusText);
      && (StatusOf(statusText) == Ongoing <==> Contains(t, "ongoing"))
      && (StatusOf(statusText) == Completed <==> !Contains(t, "ongoing") && Contains(t, "completed"))
      && (StatusOf(statusText) == OnHiatus <==>
            !Contains(t, "ongoing") && !Contains(t, "completed") && Contains(t, "hiatus"))
      && (StatusOf(statusText) == Unknown <==>
            !Contains(t, "ongoing") && !Contains(t, "completed") && !Contains(t, "hiatus"))
  {
    ContainsLowerTrimmed(statusText, "ongoing");
    ContainsLowerTrimmed(statusText, "completed");
    ContainsLowerTrimmed(statusText, "hiatus");
  }

  /** The genre line: the trimmed link texts joined with ", ", absent when there are none. */
  function GenresOf(genreTexts: seq<string>): (genres: Option<string>)
    ensures genres.Some? <==> genreTexts != []
  {
    if |genreTexts| > 0 then Some(Join(TrimAll(genreTexts), ", ")) else None
  }

  /** The summary: the Synopsis paragraphs separated by a blank line, else the description meta tag, else "". */
  function SummaryOf(page: NovelPage): (summary: string)
    ensures page.synopsis.Some? ==> summary == Join(TrimAll(page.synopsis.value), "\n\n")
    ensures page.synopsis.None? && Truthy(page.ogDescription) ==> summary == page.ogDescription.value
    ensures page.synopsis.None? && !Truthy(page.ogDescription) ==> summary == ""
  {
    FirstTruthyOfOne(page.ogDescription);
    match page.synopsis
    case Some(paragraphs) => Join(TrimAll(paragraphs), "\n\n")
    case None => FirstTruthy([page.ogDescription]).GetOr("")
  }

  /**
   * Every Synopsis paragraph appears trimmed and whole in the summary, at its
   * offset in the blank-line join, and consecutive paragraphs are separated by
   * exactly one blank line.
   */
  lemma SummaryKeepsParagraphs(page: NovelPage, k: nat)
    requires page.synopsis.Some? && k < |page.synopsis.value|
    ensures var parts := TrimAll(page.synopsis.value);
      OccursAt(SummaryOf(page), Trim(page.synopsis.value[k]), JoinOffset(parts, "\n\n", k))
    ensures var parts := TrimAll(page.synopsis.value);
      k + 1 < |parts| ==> OccursAt(SummaryOf(page), "\n\n", JoinOffset(parts, "\n\n", k) + |parts[k]|)
  {
    var parts := TrimAll(page.synopsis.value);
    JoinPart(parts, "\n\n", k);
    if k + 1 < |parts| {
      JoinSeparator(parts, "\n\n", k);
    }
  }

  /** A snapshot of every field of the novel `parseNovel` returns. */
  datatype NovelDetail = NovelDetail(
    path: string,
    name: string,
    cover: string,
    status: NovelStatus,
    author: Option<string>,
    genres: Option<string>,
    summary: Option<string>,
    chapters: seq<ChapterItem>)

  /** The placeholder novel every parse starts from. */
  function Placeholder(path: string): NovelDetail
  {
    NovelDetail(path, Untitled, DefaultCover, Unknown, None, None, None, [])
  }

  /** The novel `parseNovel` returns; its fields are filled in one after another. */
  class SourceNovel {
    var path: string
    var name: string
    var cover: string
    var status: NovelStatus
    var author: Option<string>
    var genres: Option<string>
    var summary: Option<string>
    var chapters: seq<ChapterItem>

    /** The current value of every field. */
    function Detail(): NovelDetail
      reads this
    {
      NovelDetail(path, name, cover, status, author, genres, summary, chapters)
    }

    constructor (path: string)
      ensures Detail() == Placeholder(path)
    {
      this.path := path;
      name := Untitled;
      cover := DefaultCover;
      status := Unknown;
      author := None;
      genres := None;
      summary := None;
      chapters := [];
    }
  }

  /** `novel.name = title.trim() || ogTitle || 'Untitled'`, then the cover when the page has one. */
  method SetNameAndCover(novel: SourceNovel, page: NovelPage)
    modifies novel
    ensures novel.Detail() == old(novel.Detail()).(
      name := NameOf(page),
      cover := if Truthy(page.coverSrc) then page.coverSrc.value else old(novel.cover))
  {
    novel.name := FirstTruthy([Some(Trim(page.titleText)), page.ogTitle]).GetOr(Untitled);
    var coverUrl := page.coverSrc;
    if Truthy(coverUrl) {
      novel.cover := coverUrl.value;
    }
  }

  /** Every bold label that mentions "Author" overwrites `novel.author` with its value. */
  method SetAuthor(novel: SourceNovel, spans: seq<BoldSpan>)
    modifies novel
    ensures novel.Detail() == old(novel.Detail()).(
      author := if AuthorOf(spans).Some? then AuthorOf(spans) else old(novel.author))
  {
    var s := 0;
    while s < |spans|
      invariant 0 <= s <= |spans|
      invariant novel.Detail() == old(novel.Detail()).(
        author := if AuthorOf(spans[..s]).Some? then AuthorOf(spans[..s]) else old(novel.author))
    {
      LastMatchSnoc(spans, IsAuthorLabel, LabelValue, s);
      var labelText := Trim(spans[s].text);
      var value := Trim(ReplaceFirst(spans[s].parentText, labelText, ""));
      if Contains(labelText, "Author") {
        novel.author := Some(value);
      }
      s := s + 1;
    }
    assert spans[..|spans|] == spans;
  }

  /** The status link's text picks the status; with no keyword it is left as it was. */
  method SetStatus(novel: SourceNovel, text: string)
    modifies novel
    ensures novel.Detail() == old(novel.Detail()).(
      status := if StatusOf(text) == Unknown then old(novel.status) else StatusOf(text))
  {
    var statusText := ToLower(Trim(text));
    if Contains(statusText, "ongoing") {
      novel.status := Ongoing;
    } else if Contains(statusText, "completed") {
      novel.status := Completed;
    } else if Contains(statusText, "hiatus") {
      novel.status := OnHiatus;
    }
  }

  /** Collects the trimmed genre link texts and stores their ", "-join when there is at least one. */
  method SetGenres(novel: SourceNovel, genreTexts: seq<string>)
    modifies novel
    ensures novel.Detail() == old(novel.Detail()).(
      genres := if genreTexts == [] then old(novel.genres) else GenresOf(genreTexts))
  {
    var genres: seq<string> := [];
    var g := 0;
    while g < |genreTexts|
      modifies {}
      invariant 0 <= g <= |genreTexts|
      invariant genres == TrimAll(genreTexts[..g])
    {
      TrimAllSnoc(genreTexts, g);
      genres := genres + [Trim(genreTexts[g])];
      g := g + 1;
    }
    assert genreTexts[..|genreTexts|] == genreTexts;
    assert genres == TrimAll(genreTexts);
    if |genres| > 0 {
      novel.genres := Some(Join(genres, ", "));
    }
  }

  /** The summary is always set: Synopsis paragraphs, else the description meta tag, else "". */
  method SetSummary(novel: SourceNovel, page: NovelPage)
    modifies novel
    ensures novel.Detail() == old(novel.Detail()).(summary := Some(SummaryOf(page)))
  {
    match page.synopsis {
      case Some(paragraphs) =>
        novel.summary := Some(Join(TrimAll(paragraphs), "\n\n"));
      case None =>
        novel.summary := Some(FirstTruthy([page.ogDescription]).GetOr(""));
    }
  }

  /** Rebuilds `novel.chapters` from the chapter records, one record at a time. */
  method FillChapters(novel: SourceNovel, chapterList: seq<ApiChapter>)
    modifies novel
    ensures novel.Detail() == old(novel.Detail()).(chapters := ChapterList(chapterList))
  {
    novel.chapters := [];
    var index := 0;
    while index < |chapterList|
      invariant 0 <= index <= |chapterList|
      invariant novel.Detail() == old(novel.Detail()).(chapters := ChapterList(chapterList[..index]))
    {
      assert chapterList[..index + 1][..index] == chapterList[..index];
      ChapterListSnoc(chapterList[..index + 1]);
      var chap := chapterList[index];
      var title := FirstTruthy([chap.post_title, chap.title]).GetOr(ChapterLabel(index + 1));
      var link := FirstTruthy([chap.permalink, chap.url, chap.link]);
      var date := FirstTruthy([chap.post_date, chap.date]).GetOr("");
      if link.Some? {
        novel.chapters := novel.chapters + [ChapterItem(title, StripOrigin(link.value), index + 1, date)];
      }
      index := index + 1;
    }
    assert chapterList[..|chapterList|] == chapterList;
  }

  /**
   * With an id found in the page, the chapter list is rebuilt from the chapter
   * endpoint's records when there are any; otherwise the chapters stay as they were.
   */
  method SetChapters(novel: SourceNovel, html: string, chapterResponse: Payload<ApiChapter>)
    modifies novel
    ensures novel.Detail() == old(novel.Detail()).(
      chapters := if GetNovelId(html).Some? && Items(chapterResponse) != [] then ChapterList(Items(chapterResponse))
                  else old(novel.chapters))
  {
    var novelId := GetNovelId(html);
    if Truthy(novelId) {
      var chapterList := Items(chapterResponse);
      if |chapterList| > 0 {
        FillChapters(novel, chapterList);
      }
    }
  }

  /**
   * What `parseNovel` returns for a page and the chapter endpoint's answer:
   * each field by its own rule, starting from the placeholder.
   */
  function ParsedNovel(novelPath: string, page: NovelPage, chapterResponse: Payload<ApiChapter>): (d: NovelDetail)
    ensures d.path == novelPath && d.name != "" && d.cover != ""
    ensures d.summary.Some?
    ensures GetNovelId(page.html).None? ==> d.chapters == []
    ensures d.genres.Some? <==> page.genreTexts != []
  {
    NovelDetail(
      novelPath,
      NameOf(page),
      CoverOf(page),
      StatusOf(page.statusText),
      AuthorOf(page.boldSpans),
      GenresOf(page.genreTexts),
      Some(SummaryOf(page)),
      if GetNovelId(page.html).Some? then ChapterList(Items(chapterResponse)) else [])
  }

  /**
   * `parseNovel`, given what the page selectors extracted and what the chapter
   * endpoint answered for the id found in the page (consulted only when an id
   * is found).
   */
  method ParseNovel(novelPath: string, page: NovelPage, chapterResponse: Payload<ApiChapter>)
    returns (novel: SourceNovel)
    ensures fresh(novel)
    ensures novel.Detail() == ParsedNovel(novelPath, page, chapterResponse)
  {
    novel := new SourceNovel(novelPath);
    SetNameAndCover(novel, page);
    SetAuthor(novel, page.boldSpans);
    SetStatus(novel, page.statusText);
    SetGenres(novel, page.genreTexts);
    SetSummary(novel, page);
    SetChapters(novel, page.html, chapterResponse);
  }
}
