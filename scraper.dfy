/**
 * The announcement scraper. A fetched listing page is given as what the HTML
 * parser would hand the extraction code: every `<a>` tag in document order
 * (with its `href`, its text and its parent's text) and, for each CSS selector
 * the code asks about, the matched elements in document order. Each element
 * carries its own text and, per selector, the first descendant `select_one`
 * would return. The HTTP request is the `Fetch` outcome; `urljoin` and Python's
 * `hash()` are the function parameters `resolve` and `fingerprint`.
 */
module Scraper {
  import opened Wrappers
  import Text

  /** One scraped announcement: the dictionary `scrape_announcements` returns. */
  datatype Announcement = Announcement(title: string, link: string, date: string, description: string, hash: string)

  /** A parsed tag as the extraction code reads it: `get_text()` and `get('href')`. */
  datatype Tag = Tag(text: string, href: Option<string>)

  /** An `<a>` tag with the text of its parent (`None` when it has no parent). */
  datatype Anchor = Anchor(tag: Tag, parentText: Option<string>)

  /** An element matched by a fallback selector: its tag name, itself, and the
      first descendant matching each selector (`select_one`); a selector absent
      from `firstMatch` matches nothing below it. */
  datatype Element = Element(name: string, tag: Tag, firstMatch: map<string, Tag>)

  /** The parsed page: `find_all('a')` and `select(selector)` for every selector. */
  datatype Page = Page(anchors: seq<Anchor>, matches: map<string, seq<Element>>)

  /** The outcome of `session.get(url)` plus `raise_for_status()` and parsing:
      a page, or a network, HTTP or unexpected error. */
  datatype Fetch = Fetched(page: Page) | Failed

  /** `urljoin(base, href)`; `None` when it raises. */
  type Resolver = (string, string) -> Option<string>

  /** `str(hash(s))`. */
  type Fingerprint = string -> string

  const DetailMarker: string := "/duyuru/detay/"
  const FallbackSelectors: seq<string> := [".duyuru-item", ".news-item", ".announcement-item", "article", ".list-group-item", "tr"]
  const TitleSelectors: seq<string> := ["h3", "h4", "h5", ".title", ".announcement-title", "a"]
  const DateSelectors: seq<string> := [".date", ".announcement-date", ".publish-date", "time", ".tarih"]
  const DescriptionSelectors: seq<string> := [".description", ".content", ".summary", "p"]

  /** Descriptions longer than this are cut. */
  const PreviewLength: nat := 200
  /** A cleaned parent text replaces the link text only when longer than this. */
  const MinCleanTitle: nat := 5
  /** A detail-link title must be longer than this. */
  const MinDetailTitle: nat := 3

  /** `x[:n]` for a non-negative `n`. */
  function Take<T>(s: seq<T>, n: nat): (r: seq<T>)
    ensures |r| <= n && |r| <= |s|
    ensures |r| == if |s| <= n then |s| else n
    ensures |s| <= n ==> r == s
    ensures r == s[..|r|]
  {
    if |s| <= n then s else s[..n]
  }

  /** `tag.get('href')` is truthy: present and non-empty. */
  predicate HasHref(t: Tag)
  {
    t.href.Some? && t.href.value != []
  }

  /** The `find_all` filter: `href and '/duyuru/detay/' in href`. */
  predicate IsDetailLink(a: Anchor)
  {
    HasHref(a.tag) && Text.Contains(a.tag.href.value, DetailMarker)
  }

  /** The detail links of a page, in document order. */
  function DetailLinks(anchors: seq<Anchor>): (r: seq<Anchor>)
    ensures forall a :: a in r <==> a in anchors && IsDetailLink(a)
    ensures |r| <= |anchors|
  {
    if anchors == [] then []
    else
      var rest := DetailLinks(anchors[1..]);
      assert forall a :: a in anchors <==> a == anchors[0] || a in anchors[1..];
      if IsDetailLink(anchors[0]) then [anchors[0]] + rest else rest
  }

  /** Filtering keeps document order: the links of two runs of anchors are the links of each, one after the other. */
  lemma {:induction false} DetailLinksAppend(xs: seq<Anchor>, ys: seq<Anchor>)
    ensures DetailLinks(xs + ys) == DetailLinks(xs) + DetailLinks(ys)
  {
    if xs != [] {
      assert (xs + ys)[0] == xs[0];
      assert (xs + ys)[1..] == xs[1..] + ys;
      DetailLinksAppend(xs[1..], ys);
    } else {
      assert xs + ys == ys;
    }
  }

  /** A single anchor is kept exactly when it is a detail link. */
  lemma DetailLinksSingle(a: Anchor)
    ensures DetailLinks([a]) == if IsDetailLink(a) then [a] else []
  {
  }

  /** `matches.get(selector)` with nothing for an unknown selector. */
  function Select(page: Page, selector: string): seq<Element>
  {
    if selector in page.matches then page.matches[selector] else []
  }

  function SelectOne(element: Element, selector: string): Option<Tag>
  {
    if selector in element.firstMatch then Some(element.firstMatch[selector]) else None
  }

  /** A record the scraper keeps: present with a non-blank title. */
  predicate Kept(a: Option<Announcement>)
  {
    a.Some? && Text.Strip(a.value.title) != []
  }

  /** The hash field is the fingerprint of title followed by link, and of nothing else. */
  predicate HashedFromTitleAndLink(a: Announcement, fingerprint: Fingerprint)
  {
    a.hash == fingerprint(a.title + a.link)
  }

  /** The records `extract` yields from `candidates` with a non-blank title, in
      candidate order (the body of both extraction loops of `scrape_announcements`). */
  function KeepRecords<C>(candidates: seq<C>, extract: C -> Option<Announcement>): (r: seq<Announcement>)
    ensures |r| <= |candidates|
    ensures forall x :: x in r ==> Text.Strip(x.title) != []
  {
    if |candidates| == 0 then []
    else
      var a := extract(candidates[0]);
      var rest := KeepRecords(candidates[1..], extract);
      if Kept(a) then [a.value] + rest else rest
  }

  /** Every kept record is what `extract` made of one of the candidates. */
  lemma {:induction false} KeepRecordsProvenance<C>(candidates: seq<C>, extract: C -> Option<Announcement>)
    ensures forall x :: x in KeepRecords(candidates, extract) ==> exists c :: c in candidates && extract(c) == Some(x)
  {
    if |candidates| != 0 {
      KeepRecordsProvenance(candidates[1..], extract);
      assert forall c :: c in candidates[1..] ==> c in candidates;
      assert candidates[0] in candidates;
    }
  }

  /** Candidates are handled one after another and independently: keeping from
      `xs + ys` is keeping from `xs` followed by keeping from `ys`. */
  lemma {:induction false} KeepRecordsAppend<C>(xs: seq<C>, ys: seq<C>, extract: C -> Option<Announcement>)
    ensures KeepRecords(xs + ys, extract) == KeepRecords(xs, extract) + KeepRecords(ys, extract)
  {
    if |xs| == 0 {
      assert xs + ys == ys;
    } else {
      assert (xs + ys)[1..] == xs[1..] + ys;
      KeepRecordsAppend(xs[1..], ys, extract);
    }
  }

  /** One more candidate: keeping from the first `k + 1` candidates is keeping from the first
      `k` and then from candidate `k` on its own. */
  lemma KeepRecordsStep<C>(candidates: seq<C>, k: nat, extract: C -> Option<Announcement>)
    requires k < |candidates|
    ensures KeepRecords(candidates[..k + 1], extract) ==
            KeepRecords(candidates[..k], extract) + (if Kept(extract(candidates[k])) then [extract(candidates[k]).value] else [])
  {
    assert candidates[..k + 1] == candidates[..k] + [candidates[k]];
    KeepRecordsAppend(candidates[..k], [candidates[k]], extract);
  }

  /** Nothing is kept exactly when no candidate yields a record with a non-blank title;
      a candidate that yields nothing is skipped and the others are still handled. */
  lemma {:induction false} KeepRecordsEmpty<C>(candidates: seq<C>, extract: C -> Option<Announcement>)
    ensures KeepRecords(candidates, extract) == [] <==> forall c :: c in candidates ==> !Kept(extract(c))
  {
    if candidates != [] {
      KeepRecordsEmpty(candidates[1..], extract);
      assert forall c :: c in candidates <==> c == candidates[0] || c in candidates[1..];
    }
  }

  // ===========================================================================
  // _extract_btu_announcement

  /** The title the link text and parent text give: the stripped link text,
      unless the parent text holds a date and removing every copy of that date
      and stripping leaves more than five characters. */
  function DetailTitle(a: Anchor): (r: string)
    ensures r == Text.Strip(a.tag.text) || (a.parentText.Some? && |r| > MinCleanTitle)
    // the parent text has a date and what is left of it is long enough: that remainder is the title
    ensures a.parentText.Some? && Text.SearchDate(a.parentText.value).Some? &&
      |Text.Strip(Text.RemoveAll(a.parentText.value, Text.SearchDate(a.parentText.value).value))| > MinCleanTitle
      ==> r == Text.Strip(Text.RemoveAll(a.parentText.value, Text.SearchDate(a.parentText.value).value))
    // otherwise the stripped link text is kept
    ensures !(a.parentText.Some? && Text.SearchDate(a.parentText.value).Some? &&
      |Text.Strip(Text.RemoveAll(a.parentText.value, Text.SearchDate(a.parentText.value).value))| > MinCleanTitle)
      ==> r == Text.Strip(a.tag.text)
  {
    var linkText := Text.Strip(a.tag.text);
    if a.parentText.None? then linkText
    else
      match Text.SearchDate(a.parentText.value)
      case None => linkText
      case Some(date) =>
        var clean := Text.Strip(Text.RemoveAll(a.parentText.value, date));
        if clean != [] && |clean| > MinCleanTitle then clean else linkText
  }

  /** The date: the first `DD.MM.YYYY` in the parent text, or empty. */
  function DetailDate(a: Anchor): (r: string)
    ensures r == [] || |r| == 10
    ensures r != [] <==> a.parentText.Some? && Text.SearchDate(a.parentText.value).Some?
    ensures a.parentText.Some? && Text.SearchDate(a.parentText.value).Some? ==> r == Text.SearchDate(a.parentText.value).value
  {
    if a.parentText.None? then []
    else Text.SearchDate(a.parentText.value).GetOr([])
  }

  /** `_extract_btu_announcement(link, base)`. */
  function BtuAnnouncement(a: Anchor, base: string, resolve: Resolver, fingerprint: Fingerprint): (r: Option<Announcement>)
    ensures r.Some? ==> |r.value.title| > MinDetailTitle && r.value.title == DetailTitle(a)
    ensures r.Some? ==> r.value.date == DetailDate(a) && r.value.description == []
    ensures r.Some? ==> HashedFromTitleAndLink(r.value, fingerprint)
    ensures r.Some? ==> if HasHref(a.tag) then resolve(base, a.tag.href.value) == Some(r.value.link) else r.value.link == []
    ensures r.None? <==> (HasHref(a.tag) && resolve(base, a.tag.href.value).None?) || |DetailTitle(a)| <= MinDetailTitle
  {
    var link := if HasHref(a.tag) then resolve(base, a.tag.href.value) else Some([]);
    var title := DetailTitle(a);
    if link.None? || title == [] || |title| <= MinDetailTitle then None
    else
      Some(Announcement(title, link.value, DetailDate(a), [], fingerprint(title + link.value)))
  }

  /** `_extract_btu_announcement` against a fixed page URL. */
  function BtuExtractor(base: string, resolve: Resolver, fingerprint: Fingerprint): Anchor -> Option<Announcement>
  {
    a => BtuAnnouncement(a, base, resolve, fingerprint)
  }

  /** The records the detail-link pass keeps from `links`, in order. */
  function DetailPass(links: seq<Anchor>, base: string, resolve: Resolver, fingerprint: Fingerprint): (r: seq<Announcement>)
    ensures |r| <= |links|
    ensures forall x :: x in r ==> Text.Strip(x.title) != [] && |x.title| > MinDetailTitle && HashedFromTitleAndLink(x, fingerprint)
  {
    KeepRecordsProvenance(links, BtuExtractor(base, resolve, fingerprint));
    KeepRecords(links, BtuExtractor(base, resolve, fingerprint))
  }

  /** The dated listing line of a BTU page: the date is taken out of the parent
      text and the rest becomes the title, whatever the link text says; the link
      is resolved against the page. */
  lemma DetailExample(base: string, resolve: Resolver, fingerprint: Fingerprint)
    requires resolve(base, "/duyuru/detay/77").Some?
    ensures var link := resolve(base, "/duyuru/detay/77").value;
      BtuAnnouncement(Anchor(Tag(ExampleParent, Some("/duyuru/detay/77")), Some(ExampleParent)), base, resolve, fingerprint)
      == Some(Announcement(ExampleTitle, link, ExampleDate, [], fingerprint(ExampleTitle + link)))
  {
    DatedLineTitle(ExampleParent, Some("/duyuru/detay/77"), ExampleTitle);
  }

  /** A dated line whose rest is five characters or fewer keeps the stripped link text as title. */
  lemma ShortTitleExample(base: string, resolve: Resolver, fingerprint: Fingerprint)
    requires resolve(base, "/duyuru/detay/78").Some?
    ensures var link := resolve(base, "/duyuru/detay/78").value;
      BtuAnnouncement(Anchor(Tag(ExampleLinkText, Some("/duyuru/detay/78")), Some(ShortParent)), base, resolve, fingerprint)
      == Some(Announcement(ExampleLinkText, link, ExampleDate, [], fingerprint(ExampleLinkText + link)))
  {
    ShortTitleKept();
  }

  /** The short line's date is found and its link text is kept. */
  lemma ShortTitleKept()
    ensures var a := Anchor(Tag(ExampleLinkText, Some("/duyuru/detay/78")), Some(ShortParent));
      DetailDate(a) == ExampleDate && DetailTitle(a) == ExampleLinkText
  {
    assert ShortRest[0] == 'K' && ShortRest[|ShortRest| - 1] == 'a';
    DatedLineTitle(ExampleLinkText, Some("/duyuru/detay/78"), ShortRest);
    assert ExampleLinkText[0] == 'K' && ExampleLinkText[|ExampleLinkText| - 1] == 'u';
    SpacedTitleStripped(ExampleLinkText);
  }

  const ExampleDate: string := "12.03.2024"
  const ExampleTitle: string := "Yeni Duyuru Başlığı"
  const ExampleParent: string := ExampleDate + " " + ExampleTitle
  const ShortRest: string := "Kısa"
  const ShortParent: string := ExampleDate + " " + ShortRest
  const ExampleLinkText: string := "Kısa duyuru"

  /** The anchor of a line starting with the example date: that date is found, and the
      rest of the line is the title exactly when it is longer than five characters. */
  lemma DatedLineTitle(text: string, href: Option<string>, rest: string)
    requires '1' !in rest
    requires rest != [] && !Text.IsSpace(rest[0]) && !Text.IsSpace(rest[|rest| - 1])
    ensures var a := Anchor(Tag(text, href), Some(ExampleDate + " " + rest));
      DetailDate(a) == ExampleDate &&
      DetailTitle(a) == if |rest| > MinCleanTitle then rest else Text.Strip(text)
  {
    DatedLineFound(rest);
    DatedLineRemoved(rest);
    SpacedTitleStripped(rest);
  }

  /** A line starting with the example date finds that date. */
  lemma DatedLineFound(rest: string)
    ensures Text.SearchDate(ExampleDate + " " + rest) == Some(ExampleDate)
  {
    var line := ExampleDate + " " + rest;
    assert Text.IsDateAt(line, 0);
    assert line[0..10] == ExampleDate;
  }

  /** Removing the date from such a line leaves the space and the rest, when the rest holds no `1`. */
  lemma DatedLineRemoved(rest: string)
    requires '1' !in rest
    ensures Text.RemoveAll(ExampleDate + " " + rest, ExampleDate) == " " + rest
  {
    var line := ExampleDate + " " + rest;
    assert Text.StartsWith(line, ExampleDate);
    assert line[10..] == " " + rest;
    assert ExampleDate[0] == '1';
    assert '1' !in " " + rest;
    Text.OccurrenceHasFirstChar(" " + rest, ExampleDate);
    Text.RemoveAllLength(" " + rest, ExampleDate);
  }

  /** A text with no space at either end strips to itself, also after one leading space. */
  lemma SpacedTitleStripped(t: string)
    requires t != [] && !Text.IsSpace(t[0]) && !Text.IsSpace(t[|t| - 1])
    ensures Text.Strip(" " + t) == t
    ensures Text.Strip(t) == t
  {
    assert (" " + t)[1..] == t;
    assert Text.StripLeft(t) == t;
    assert Text.StripRight(t) == t;
  }

  // ===========================================================================
  // _extract_announcement_data

  /** The selector's first match has non-blank text. */
  predicate NonBlankMatch(element: Element, selector: string)
  {
    var t := SelectOne(element, selector);
    t.Some? && Text.Strip(t.value.text) != []
  }

  /** The position of the first selector whose match has non-blank text; `|selectors|` when there is none. */
  function FirstNonBlank(element: Element, selectors: seq<string>): (i: nat)
    ensures i <= |selectors|
    ensures forall j :: 0 <= j < i ==> !NonBlankMatch(element, selectors[j])
    ensures i < |selectors| ==> NonBlankMatch(element, selectors[i])
  {
    if selectors == [] || NonBlankMatch(element, selectors[0]) then 0
    else 1 + FirstNonBlank(element, selectors[1..])
  }

  lemma FirstNonBlankAt(element: Element, selectors: seq<string>, i: nat)
    requires i <= |selectors| && forall j :: 0 <= j < i ==> !NonBlankMatch(element, selectors[j])
    requires i < |selectors| ==> NonBlankMatch(element, selectors[i])
    ensures FirstNonBlank(element, selectors) == i
  {
  }

  /** `title_element` after the title loop: the first match with non-blank text,
      or else whatever the last selector matched (possibly nothing). */
  function TitleElement(element: Element, selectors: seq<string>): Option<Tag>
  {
    var i := FirstNonBlank(element, selectors);
    if i < |selectors| then SelectOne(element, selectors[i])
    else if selectors == [] then None
    else SelectOne(element, selectors[|selectors| - 1])
  }

  /** The title: the stripped text of the title element, or of the element itself when there is none. */
  function ElementTitle(element: Element): (r: string)
    ensures r == [] || (!Text.IsSpace(r[0]) && !Text.IsSpace(r[|r| - 1]))
  {
    var t := TitleElement(element, TitleSelectors);
    var text := if t.Some? then t.value.text else element.tag.text;
    Text.StripIsTrimmedInfix(text);
    Text.Strip(text)
  }

  /** A non-blank title comes from the first title selector whose match is non-blank;
      when no selector gives one, the title is blank unless the last selector matched nothing
      and the element's own text is non-blank. */
  lemma TitleSelection(element: Element)
    ensures var i := FirstNonBlank(element, TitleSelectors);
      (i < |TitleSelectors| ==> ElementTitle(element) == Text.Strip(SelectOne(element, TitleSelectors[i]).value.text) &&
                                ElementTitle(element) != []) &&
      (i == |TitleSelectors| && SelectOne(element, "a").Some? ==> ElementTitle(element) == []) &&
      (i == |TitleSelectors| && SelectOne(element, "a").None? ==> ElementTitle(element) == Text.Strip(element.tag.text))
  {
    var i := FirstNonBlank(element, TitleSelectors);
    assert TitleSelectors[|TitleSelectors| - 1] == "a";
    if i == |TitleSelectors| {
      assert !NonBlankMatch(element, TitleSelectors[|TitleSelectors| - 1]);
    }
  }

  /** `element.find('a')`, or the element itself when it is a link. */
  function LinkElement(element: Element): Option<Tag>
  {
    if element.name != "a" then SelectOne(element, "a") else Some(element.tag)
  }

  /** The resolved link, empty when there is no `href`; `None` when resolving raises. */
  function ElementLink(element: Element, base: string, resolve: Resolver): (r: Option<string>)
    ensures r.None? ==> LinkElement(element).Some? && HasHref(LinkElement(element).value)
    ensures !(LinkElement(element).Some? && HasHref(LinkElement(element).value)) ==> r == Some([])
    ensures LinkElement(element).Some? && HasHref(LinkElement(element).value) ==> r == resolve(base, LinkElement(element).value.href.value)
  {
    var l := LinkElement(element);
    if l.Some? && HasHref(l.value) then resolve(base, l.value.href.value) else Some([])
  }

  /** The position of the first selector that matches anything below the element; `|selectors|` when none does. */
  function FirstPresent(element: Element, selectors: seq<string>): (i: nat)
    ensures i <= |selectors|
    ensures forall j :: 0 <= j < i ==> SelectOne(element, selectors[j]).None?
    ensures i < |selectors| ==> SelectOne(element, selectors[i]).Some?
  {
    if selectors == [] || SelectOne(element, selectors[0]).Some? then 0
    else 1 + FirstPresent(element, selectors[1..])
  }

  lemma FirstPresentAt(element: Element, selectors: seq<string>, i: nat)
    requires i <= |selectors| && forall j :: 0 <= j < i ==> SelectOne(element, selectors[j]).None?
    requires i < |selectors| ==> SelectOne(element, selectors[i]).Some?
    ensures FirstPresent(element, selectors) == i
  {
  }

  /** The date: the stripped text of the first date selector that matches, or empty. */
  function ElementDate(element: Element, selectors: seq<string>): (r: string)
    ensures FirstPresent(element, selectors) == |selectors| ==> r == []
    ensures FirstPresent(element, selectors) < |selectors| ==>
      r == Text.Strip(SelectOne(element, selectors[FirstPresent(element, selectors)]).value.text)
    ensures r == [] || (!Text.IsSpace(r[0]) && !Text.IsSpace(r[|r| - 1]))
  {
    var i := FirstPresent(element, selectors);
    if i < |selectors| then
      var text := SelectOne(element, selectors[i]).value.text;
      Text.StripIsTrimmedInfix(text);
      Text.Strip(text)
    else []
  }

  /** `text[:200] + "..."` when longer than 200 characters, the text itself otherwise. */
  function Preview(s: string): (r: string)
    ensures |r| <= PreviewLength + 3
    ensures r == [] <==> s == []
    ensures |s| <= PreviewLength ==> r == s
    ensures |s| > PreviewLength ==> |r| == PreviewLength + 3 && r[..PreviewLength] == s[..PreviewLength] && r[PreviewLength..] == "..."
  {
    if |s| > PreviewLength then s[..PreviewLength] + "..." else s
  }

  /** The selector's first match has non-blank text other than the title. */
  predicate UsableDescription(element: Element, selector: string, title: string)
  {
    var t := SelectOne(element, selector);
    t.Some? && Text.Strip(t.value.text) != [] && Text.Strip(t.value.text) != title
  }

  /** The position of the first selector giving a usable description; `|selectors|` when none does. */
  function FirstUsable(element: Element, selectors: seq<string>, title: string): (i: nat)
    ensures i <= |selectors|
    ensures forall j :: 0 <= j < i ==> !UsableDescription(element, selectors[j], title)
    ensures i < |selectors| ==> UsableDescription(element, selectors[i], title)
  {
    if selectors == [] || UsableDescription(element, selectors[0], title) then 0
    else 1 + FirstUsable(element, selectors[1..], title)
  }

  lemma FirstUsableAt(element: Element, selectors: seq<string>, title: string, i: nat)
    requires i <= |selectors| && forall j :: 0 <= j < i ==> !UsableDescription(element, selectors[j], title)
    requires i < |selectors| ==> UsableDescription(element, selectors[i], title)
    ensures FirstUsable(element, selectors, title) == i
  {
  }

  /** The description: the preview of the first usable match's stripped text, or empty. */
  function ElementDescription(element: Element, selectors: seq<string>, title: string): (r: string)
    ensures r == [] <==> FirstUsable(element, selectors, title) == |selectors|
    ensures FirstUsable(element, selectors, title) < |selectors| ==>
      r == Preview(Text.Strip(SelectOne(element, selectors[FirstUsable(element, selectors, title)]).value.text))
    ensures |r| <= PreviewLength + 3
  {
    var i := FirstUsable(element, selectors, title);
    if i < |selectors| then Preview(Text.Strip(SelectOne(element, selectors[i]).value.text)) else []
  }

  /** What `_extract_announcement_data(element, base)` returns. */
  function AnnouncementData(element: Element, base: string, resolve: Resolver, fingerprint: Fingerprint): (r: Option<Announcement>)
    ensures r.Some? <==> ElementTitle(element) != [] && ElementLink(element, base, resolve).Some?
    ensures r.Some? ==> r.value.title == ElementTitle(element) && Some(r.value.link) == ElementLink(element, base, resolve)
    ensures r.Some? ==> r.value.date == ElementDate(element, DateSelectors)
    ensures r.Some? ==> r.value.description == ElementDescription(element, DescriptionSelectors, r.value.title)
    ensures r.Some? ==> HashedFromTitleAndLink(r.value, fingerprint)
  {
    var title := ElementTitle(element);
    var link := ElementLink(element, base, resolve);
    if link.None? || title == [] then None
    else Some(Announcement(title, link.value, ElementDate(element, DateSelectors), ElementDescription(element, DescriptionSelectors, title), fingerprint(title + link.value)))
  }

  /** A description that is the title over again is never used: when the first description
      candidate repeats the title, the next one is taken. */
  lemma DescriptionDiffersFromTitle(element: Element, title: string)
    requires title != []
    ensures var t := SelectOne(element, DescriptionSelectors[0]);
      t.Some? && Text.Strip(t.value.text) == title ==>
        ElementDescription(element, DescriptionSelectors, title) ==
        ElementDescription(element.(firstMatch := element.firstMatch - {DescriptionSelectors[0]}), DescriptionSelectors, title)
  {
  }

  /** The title loop: try each selector, stop at the first match with non-blank text. */
  method FindTitleElement(element: Element, selectors: seq<string>) returns (titleElement: Option<Tag>)
    ensures titleElement == TitleElement(element, selectors)
  {
    titleElement := None;
    var i := 0;
    while i < |selectors|
      invariant 0 <= i <= |selectors|
      invariant forall j :: 0 <= j < i ==> !NonBlankMatch(element, selectors[j])
      invariant titleElement == if i == 0 then None else SelectOne(element, selectors[i - 1])
    {
      titleElement := SelectOne(element, selectors[i]);
      if titleElement.Some? && Text.Strip(titleElement.value.text) != [] {
        break;
      }
      i := i + 1;
    }
    FirstNonBlankAt(element, selectors, i);
  }

  /** The date loop: the stripped text of the first selector that matches. */
  method FindDate(element: Element, selectors: seq<string>) returns (date: string)
    ensures date == ElementDate(element, selectors)
  {
    date := [];
    var j := 0;
    while j < |selectors|
      invariant 0 <= j <= |selectors|
      invariant forall k :: 0 <= k < j ==> SelectOne(element, selectors[k]).None?
      invariant date == []
    {
      var dateElement := SelectOne(element, selectors[j]);
      if dateElement.Some? {
        date := Text.Strip(dateElement.value.text);
        break;
      }
      j := j + 1;
    }
    FirstPresentAt(element, selectors, j);
  }

  /** The description loop: the first non-blank match other than the title, cut to a preview. */
  method FindDescription(element: Element, selectors: seq<string>, title: string) returns (description: string)
    ensures description == ElementDescription(element, selectors, title)
  {
    description := [];
    var k := 0;
    while k < |selectors|
      invariant 0 <= k <= |selectors|
      invariant forall m :: 0 <= m < k ==> !UsableDescription(element, selectors[m], title)
      invariant description == []
    {
      var descElement := SelectOne(element, selectors[k]);
      if descElement.Some? {
        var descText := Text.Strip(descElement.value.text);
        if descText != [] && descText != title {
          description := Preview(descText);
          break;
        }
      }
      k := k + 1;
    }
    FirstUsableAt(element, selectors, title, k);
  }

  /** `_extract_announcement_data`: title, link, date and description in turn. */
  method ExtractAnnouncementData(element: Element, baseUrl: string, resolve: Resolver, fingerprint: Fingerprint)
    returns (r: Option<Announcement>)
    ensures r == AnnouncementData(element, baseUrl, resolve, fingerprint)
  {
    var title: string := [];
    var titleElement := FindTitleElement(element, TitleSelectors);
    if titleElement.None? {
      if element.name == "a" {
        titleElement := Some(element.tag);
      } else {
        title := Text.Strip(element.tag.text);
      }
    }
    if titleElement.Some? {
      title := Text.Strip(titleElement.value.text);
    }

    var link: string := [];
    var linkElement := if element.name != "a" then SelectOne(element, "a") else Some(element.tag);
    if linkElement.Some? && HasHref(linkElement.value) {
      var joined := resolve(baseUrl, linkElement.value.href.value);
      if joined.None? {
        return None;
      }
      link := joined.value;
    }

    var date := FindDate(element, DateSelectors);
    var description := FindDescription(element, DescriptionSelectors, title);

    if title != [] {
      return Some(Announcement(title, link, date, description, fingerprint(title + link)));
    }
    return None;
  }

  /** `_extract_announcement_data` against a fixed page URL. */
  function DataExtractor(base: string, resolve: Resolver, fingerprint: Fingerprint): Element -> Option<Announcement>
  {
    e => AnnouncementData(e, base, resolve, fingerprint)
  }

  /** The records a fallback pass keeps from `elements`, in order. */
  function DataPass(elements: seq<Element>, base: string, resolve: Resolver, fingerprint: Fingerprint): (r: seq<Announcement>)
    ensures |r| <= |elements|
    ensures forall x :: x in r ==> Text.Strip(x.title) != [] && HashedFromTitleAndLink(x, fingerprint)
  {
    KeepRecordsProvenance(elements, DataExtractor(base, resolve, fingerprint));
    KeepRecords(elements, DataExtractor(base, resolve, fingerprint))
  }

  // ===========================================================================
  // scrape_announcements

  /** The records one fallback selector yields from its first `max` elements. */
  function SelectorYield(page: Page, selector: string, max: nat, base: string, resolve: Resolver, fingerprint: Fingerprint): (r: seq<Announcement>)
    ensures |r| <= max
  {
    DataPass(Take(Select(page, selector), max), base, resolve, fingerprint)
  }

  /** Whether a fallback selector yields any record. */
  function Productive(page: Page, max: nat, base: string, resolve: Resolver, fingerprint: Fingerprint): string -> bool
  {
    selector => SelectorYield(page, selector, max, base, resolve, fingerprint) != []
  }

  /** The position of the first of `xs` satisfying `p`; `|xs|` when none does. */
  function FirstWhere<T>(xs: seq<T>, p: T -> bool): (i: nat)
    ensures i <= |xs|
    ensures forall j :: 0 <= j < i ==> !p(xs[j])
    ensures i < |xs| ==> p(xs[i])
  {
    if |xs| == 0 || p(xs[0]) then 0 else 1 + FirstWhere(xs[1..], p)
  }

  lemma FirstWhereAt<T>(xs: seq<T>, p: T -> bool, i: nat)
    requires i <= |xs| && forall j :: 0 <= j < i ==> !p(xs[j])
    requires i < |xs| ==> p(xs[i])
    ensures FirstWhere(xs, p) == i
  {
  }

  /** The fallback: the yield of the first of `selectors`, in order, that yields anything. */
  function FallbackPass(page: Page, selectors: seq<string>, max: nat, base: string, resolve: Resolver, fingerprint: Fingerprint): (r: seq<Announcement>)
    ensures |r| <= max
    ensures forall x :: x in r ==> Text.Strip(x.title) != [] && HashedFromTitleAndLink(x, fingerprint)
    ensures r == [] <==> FirstWhere(selectors, Productive(page, max, base, resolve, fingerprint)) == |selectors|
    ensures FirstWhere(selectors, Productive(page, max, base, resolve, fingerprint)) < |selectors| ==>
      r == SelectorYield(page, selectors[FirstWhere(selectors, Productive(page, max, base, resolve, fingerprint))], max, base, resolve, fingerprint)
  {
    var i := FirstWhere(selectors, Productive(page, max, base, resolve, fingerprint));
    if i < |selectors| then SelectorYield(page, selectors[i], max, base, resolve, fingerprint) else []
  }

  /** What `scrape_announcements(url, max)` returns for the fetch outcome of `url`. */
  function Scrape(fetch: Fetch, url: string, max: nat, resolve: Resolver, fingerprint: Fingerprint): (r: seq<Announcement>)
    ensures fetch.Failed? ==> r == []
    ensures |r| <= max
    ensures forall x :: x in r ==> Text.Strip(x.title) != [] && HashedFromTitleAndLink(x, fingerprint)
  {
    match fetch
    case Failed => []
    case Fetched(page) =>
      var detail := DetailPass(Take(DetailLinks(page.anchors), max), url, resolve, fingerprint);
      if detail != [] then detail else FallbackPass(page, FallbackSelectors, max, url, resolve, fingerprint)
  }

  /** The two strategies: when one of the first `max` detail links yields a record,
      the result is exactly the detail pass and the fallback is not consulted;
      otherwise it is the fallback's result. */
  lemma ScrapeStrategy(page: Page, url: string, max: nat, resolve: Resolver, fingerprint: Fingerprint)
    ensures var links := Take(DetailLinks(page.anchors), max);
      var r := Scrape(Fetched(page), url, max, resolve, fingerprint);
      ((exists a :: a in links && Kept(BtuAnnouncement(a, url, resolve, fingerprint))) ==>
         r == DetailPass(links, url, resolve, fingerprint) && r != []) &&
      ((forall a :: a in links ==> !Kept(BtuAnnouncement(a, url, resolve, fingerprint))) ==>
         r == FallbackPass(page, FallbackSelectors, max, url, resolve, fingerprint))
  {
    KeepRecordsEmpty(Take(DetailLinks(page.anchors), max), BtuExtractor(url, resolve, fingerprint));
  }

  /** The detail-link loop over the first `max` links. */
  method ExtractDetailLinks(links: seq<Anchor>, max: nat, url: string, resolve: Resolver, fingerprint: Fingerprint)
    returns (announcements: seq<Announcement>)
    ensures announcements == DetailPass(Take(links, max), url, resolve, fingerprint)
  {
    announcements := [];
    var batch := Take(links, max);
    ghost var extract := BtuExtractor(url, resolve, fingerprint);
    for k := 0 to |batch|
      invariant announcements == KeepRecords(batch[..k], extract)
    {
      var a := BtuAnnouncement(batch[k], url, resolve, fingerprint);
      KeepRecordsStep(batch, k, extract);
      if a.Some? && Text.Strip(a.value.title) != [] {
        announcements := announcements + [a.value];
      }
    }
    assert batch[..|batch|] == batch;
  }

  /** One fallback selector: extract from its first `max` elements. */
  method ExtractElements(elements: seq<Element>, max: nat, url: string, resolve: Resolver, fingerprint: Fingerprint)
    returns (announcements: seq<Announcement>)
    ensures announcements == DataPass(Take(elements, max), url, resolve, fingerprint)
  {
    announcements := [];
    var batch := Take(elements, max);
    ghost var extract := DataExtractor(url, resolve, fingerprint);
    for k := 0 to |batch|
      invariant announcements == KeepRecords(batch[..k], extract)
    {
      var a := ExtractAnnouncementData(batch[k], url, resolve, fingerprint);
      KeepRecordsStep(batch, k, extract);
      if a.Some? && Text.Strip(a.value.title) != [] {
        announcements := announcements + [a.value];
      }
    }
    assert batch[..|batch|] == batch;
  }

  /** A selector that matches no element yields nothing. */
  lemma NothingSelected(page: Page, selector: string, max: nat, base: string, resolve: Resolver, fingerprint: Fingerprint)
    requires Select(page, selector) == []
    ensures SelectorYield(page, selector, max, base, resolve, fingerprint) == []
  {
    assert Take(Select(page, selector), max) == [];
  }

  /** What one selector's elements give is that selector's yield. */
  lemma SelectedYield(page: Page, selector: string, max: nat, base: string, resolve: Resolver, fingerprint: Fingerprint,
                      announcements: seq<Announcement>)
    requires announcements == DataPass(Take(Select(page, selector), max), base, resolve, fingerprint)
    ensures announcements == SelectorYield(page, selector, max, base, resolve, fingerprint)
    ensures Productive(page, max, base, resolve, fingerprint)(selector) <==> announcements != []
  {
  }

  /** The fallback loop: selectors in order, stopping at the first that yields a record. */
  method ExtractFallback(page: Page, selectors: seq<string>, max: nat, url: string, resolve: Resolver, fingerprint: Fingerprint)
    returns (announcements: seq<Announcement>)
    ensures announcements == FallbackPass(page, selectors, max, url, resolve, fingerprint)
  {
    ghost var productive := Productive(page, max, url, resolve, fingerprint);
    announcements := [];
    var s := 0;
    while s < |selectors|
      invariant 0 <= s <= |selectors|
      invariant announcements == []
      invariant forall j :: 0 <= j < s ==> !productive(selectors[j])
    {
      var elements := Select(page, selectors[s]);
      if elements != [] {
        announcements := ExtractElements(elements, max, url, resolve, fingerprint);
        SelectedYield(page, selectors[s], max, url, resolve, fingerprint, announcements);
        if announcements != [] {
          FirstWhereAt(selectors, productive, s);
          return;
        }
      } else {
        NothingSelected(page, selectors[s], max, url, resolve, fingerprint);
      }
      s := s + 1;
    }
    FirstWhereAt(selectors, productive, s);
  }

  /** `scrape_announcements`: the detail-link pass, then the fallback selectors when it found nothing. */
  method ScrapeAnnouncements(fetch: Fetch, url: string, maxAnnouncements: nat, resolve: Resolver, fingerprint: Fingerprint)
    returns (announcements: seq<Announcement>)
    ensures announcements == Scrape(fetch, url, maxAnnouncements, resolve, fingerprint)
  {
    if fetch.Failed? {
      return [];
    }
    var page := fetch.page;
    announcements := [];
    var detailLinks := DetailLinks(page.anchors);
    if detailLinks != [] {
      announcements := ExtractDetailLinks(detailLinks, maxAnnouncements, url, resolve, fingerprint);
    }
    if announcements == [] {
      announcements := ExtractFallback(page, FallbackSelectors, maxAnnouncements, url, resolve, fingerprint);
    }
  }
}
