/** Concrete cases of the adapter's rules, worked through on small inputs. */
module Examples {
  import opened Wrappers
  import opened JsString
  import opened Api
  import opened ShanghaiFantasy

  /** A `data-cat="482"` attribute yields the id "482". */
  lemma DataCatExample()
    ensures GetNovelId("data-cat=\"482\"") == Some("482")
  {
    var html := "data-cat=\"482\"";
    assert html[0..9] == DataCatPrefix;
    assert html[10..13] == "482";
    assert DataCatMatch(html, 0, "482");
    GetNovelIdPrefersDataCat(html, 0, "482");
  }

  /** Without a data-cat attribute, a `?p=773` shortlink yields the id "773". */
  lemma ShortlinkExample()
    ensures GetNovelId("<a href=\"/?p=773\">") == Some("773")
  {
    var html := "<a href=\"/?p=773\">";
    assert forall k :: 0 <= k < |html| ==> html[k] != 'd';
    assert forall j: nat, e :: !DataCatMatch(html, j, e);
    assert html[13..16] == "773";
    assert ShortlinkMatch(html, 10, "773");
    assert forall j :: 0 <= j < 10 ==> html[j] != '?' && html[j] != '&';
    GetNovelIdFallsBackToShortlink(html, 10, "773");
  }

  /** A page with neither pattern yields no id. */
  lemma NoIdExample()
    ensures GetNovelId("<p>none</p>").None?
  {
    var html := "<p>none</p>";
    assert forall k :: 0 <= k < |html| ==> html[k] != 'd' && html[k] != '?' && html[k] != '&';
    assert forall j: nat, e :: !DataCatMatch(html, j, e);
    assert forall j: nat, e :: !ShortlinkMatch(html, j, e);
    GetNovelIdNull(html);
  }

  const LinkedFirst := ApiChapter(None, None, Some(Site + "/ch-1"), None, None, Some("2024-01-01"), None)
  const Unlinked := ApiChapter(Some("No Link"), None, None, None, None, None, None)
  const LinkedThird := ApiChapter(None, None, Some(Site + "/ch-3"), None, None, None, None)

  /** An untitled record gets the synthesised title; its link loses the origin. */
  lemma FirstEntryExample()
    ensures ChapterEntry(LinkedFirst, 0) == Some(ChapterItem("Chapter 1", "/ch-1", 1, "2024-01-01"))
  {
    ResolveAfterStrip(Site + "/ch-1");
    assert (Site + "/ch-1")[|Site|..] == "/ch-1";
    ChapterEntryFields(LinkedFirst, 0);
    assert NatToString(1) == "1";
    assert "Chapter " + "1" == "Chapter 1";
  }

  /** Without a date the release time is empty. */
  lemma ThirdEntryExample()
    ensures ChapterEntry(LinkedThird, 2) == Some(ChapterItem("Chapter 3", "/ch-3", 3, ""))
  {
    ResolveAfterStrip(Site + "/ch-3");
    assert (Site + "/ch-3")[|Site|..] == "/ch-3";
    ChapterEntryFields(LinkedThird, 2);
    assert NatToString(3) == "3";
    assert "Chapter " + "3" == "Chapter 3";
  }

  /**
   * Three records, the middle one without a link: the kept chapters carry
   * numbers 1 and 3, leaving a gap where the dropped record was.
   */
  lemma ChapterGapExample()
    ensures ChapterList([LinkedFirst, Unlinked, LinkedThird])
      == [ChapterItem("Chapter 1", "/ch-1", 1, "2024-01-01"), ChapterItem("Chapter 3", "/ch-3", 3, "")]
  {
    var list := [LinkedFirst, Unlinked, LinkedThird];
    FirstEntryExample();
    ThirdEntryExample();
    assert ChapterEntry(Unlinked, 1) == None;
    assert list[..2] == [LinkedFirst, Unlinked];
    assert [LinkedFirst, Unlinked][..1] == [LinkedFirst];
    assert [LinkedFirst][..0] == [];
    assert ChapterList([LinkedFirst]) == [ChapterItem("Chapter 1", "/ch-1", 1, "2024-01-01")];
    assert ChapterList([LinkedFirst, Unlinked]) == ChapterList([LinkedFirst]);
  }

  /** Surrounding whitespace and case do not matter to the status. */
  lemma OngoingExample()
    ensures StatusOf("  Ongoing  ") == Ongoing
  {
    var a := ToLower("  Ongoing  ");
    assert a[2..9] == "ongoing";
    assert OccursAt(a, "ongoing", 2);
    ContainsSpec(a, "ongoing");
    StatusByKeyword("  Ongoing  ");
  }

  lemma CompletedExample()
    ensures StatusOf("Completed") == Completed
  {
    var b := ToLower("Completed");
    assert b == "completed";
    assert OccursAt(b, "completed", 0);
    forall i | 0 <= i <= 2
      ensures !OccursAt(b, "ongoing", i)
    {
      assert b[i..i + 7][1] == b[i + 1];
    }
    ContainsSpec(b, "ongoing");
    ContainsSpec(b, "completed");
    StatusByKeyword("Completed");
  }

  lemma HiatusExample()
    ensures StatusOf("On Hiatus") == OnHiatus
  {
    var c := ToLower("On Hiatus");
    assert c == "on hiatus";
    HiatusTextKeywords(c);
    StatusByKeyword("On Hiatus");
  }

  /**
   * The keyword tests on the lower-cased text. The text comes in as a parameter
   * pinned by `requires` rather than as a literal in the body, which keeps the
   * solver from unfolding the literal everywhere and the proof cheap.
   */
  lemma HiatusTextKeywords(c: string)
    requires c == "on hiatus"
    ensures !Contains(c, "ongoing") && !Contains(c, "completed") && Contains(c, "hiatus")
  {
    assert OccursAt(c, "hiatus", 3);
    forall i | 0 <= i <= 2
      ensures !OccursAt(c, "ongoing", i)
    {
      assert c[i..i + 7][2] == c[i + 2];
    }
    assert c[0..9][0] == c[0];
    ContainsSpec(c, "ongoing");
    ContainsSpec(c, "completed");
    ContainsSpec(c, "hiatus");
  }

  /** A status text without any keyword leaves the status unknown. */
  lemma UnknownExample()
    ensures StatusOf("Licensed") == Unknown
  {
    var d := ToLower("Licensed");
    assert d == "licensed";
    forall i | 0 <= i <= |d| - 6
      ensures !OccursAt(d, "hiatus", i)
    {
      assert d[i..i + 6][0] == d[i];
    }
    forall i | 0 <= i <= |d| - 7
      ensures !OccursAt(d, "ongoing", i)
    {
      assert d[i..i + 7][0] == d[i];
    }
    assert d[0..8][0] == d[0];
    ContainsSpec(d, "ongoing");
    ContainsSpec(d, "completed");
    ContainsSpec(d, "hiatus");
    StatusByKeyword("Licensed");
  }
}
