/**
 * The page-to-record extractor of the content script: a classifier on the
 * page URL that picks one of three strategies (LinkedIn profile, Twitter/X,
 * generic page), each a single pass of lookups, splits and trims.
 *
 * The page is abstract: its URL, its title, and for each selector the
 * extractor queries, the `innerText` (or the meta tag's `content`) of the
 * element it finds, `None` when `querySelector` finds nothing.
 */
module ContentScript {
  import opened Wrappers
  import opened JsStrings

  datatype Page = Page(
    url: string,                          // window.location.href
    title: string,                        // document.title
    linkedInName: Option<string>,         // 'h1.text-heading-xlarge'
    linkedInNameAlt: Option<string>,      // '.pv-text-details__left-panel h1'
    linkedInHeadline: Option<string>,     // '.text-body-medium.break-words'
    twitterUserName: Option<string>,      // 'div[data-testid="UserName"] span span'
    twitterDescription: Option<string>,   // 'div[data-testid="UserDescription"]'
    firstHeading: Option<string>,         // 'h1'
    metaDescription: Option<string>       // 'meta[name="description"]', its content
  )

  /** What every strategy returns: four strings, never absent. */
  datatype ExtractionResult = ExtractionResult(name: string, role: string, company: string, url: string)

  datatype Strategy = LinkedIn | Twitter | Generic

  const LinkedInProfilePath := "linkedin.com/in/"
  const TwitterHost := "twitter.com"
  const XHost := "x.com"
  const RoleCompanySeparator := " at "
  const TwitterCompany := "Twitter/X"

  /** `elem ? elem.innerText.trim() : ""`. */
  function ElementText(elem: Option<string>): (r: string)
    ensures elem.None? ==> r == ""
    ensures elem.Some? ==> r == Trim(elem.value)
    ensures Trimmed(r)
  {
    match elem
    case Some(t) => Trim(t)
    case None => ""
  }

  /** The site classifier of `scrapePage`: the first URL test that matches wins. */
  function Classify(url: string): (s: Strategy)
    ensures s == LinkedIn <==> Includes(url, LinkedInProfilePath)
    ensures s == Twitter <==> !Includes(url, LinkedInProfilePath) && (Includes(url, TwitterHost) || Includes(url, XHost))
    ensures s == Generic <==> !Includes(url, LinkedInProfilePath) && !Includes(url, TwitterHost) && !Includes(url, XHost)
  {
    if Includes(url, LinkedInProfilePath) then LinkedIn
    else if Includes(url, TwitterHost) || Includes(url, XHost) then Twitter
    else Generic
  }

  /** `scrapeLinkedIn`. */
  function ScrapeLinkedIn(p: Page): (r: ExtractionResult)
    ensures r.url == p.url
    // the first name selector wins whenever it matches, even on empty text
    ensures p.linkedInName.Some? ==> r.name == Trim(p.linkedInName.value)
    ensures p.linkedInName.None? && p.linkedInNameAlt.Some? ==> r.name == Trim(p.linkedInNameAlt.value)
    ensures p.linkedInName.None? && p.linkedInNameAlt.None? ==> r.name == ""
    ensures p.linkedInHeadline.Some? ==> r.role == Trim(p.linkedInHeadline.value)
    ensures p.linkedInHeadline.None? ==> r.role == "" && r.company == ""
    // the company is the text between the first " at " and the next one, not all that follows
    ensures Includes(r.role, RoleCompanySeparator) ==>
              r.company == Trim(Before(After(r.role, RoleCompanySeparator), RoleCompanySeparator))
    ensures !Includes(r.role, RoleCompanySeparator) ==> r.company == ""
    ensures Trimmed(r.name) && Trimmed(r.role) && Trimmed(r.company)
  {
    var name := ElementText(p.linkedInName.OrElse(p.linkedInNameAlt));
    var role := ElementText(p.linkedInHeadline);
    var company :=
      if Includes(role, RoleCompanySeparator) then
        SplitSecond(role, RoleCompanySeparator);
        Trim(Split(role, RoleCompanySeparator)[1])
      else "";
    assert !Includes("", RoleCompanySeparator);
    ExtractionResult(name, role, company, p.url)
  }

  /** `scrapeTwitter`. */
  function ScrapeTwitter(p: Page): (r: ExtractionResult)
    ensures r.url == p.url
    ensures r.company == TwitterCompany
    ensures p.twitterUserName.Some? ==> r.name == Trim(p.twitterUserName.value)
    // without the user-name span the name comes from the title, up to its first '('
    ensures p.twitterUserName.None? ==> r.name == Trim(Before(p.title, "("))
    ensures p.twitterUserName.None? && '(' !in p.title ==> r.name == Trim(p.title)
    ensures p.twitterDescription.None? ==> r.role == ""
    ensures p.twitterDescription.Some? ==> r.role == Trim(p.twitterDescription.value)
    ensures Trimmed(r.name) && Trimmed(r.role) && Trimmed(r.company)
  {
    var name :=
      if p.twitterUserName.Some? then Trim(p.twitterUserName.value)
      else (
        SplitFirst(p.title, "(");
        NoCharNoOccurrenceIf(p.title, "(");
        Trim(Split(p.title, "(")[0]));
    var role := ElementText(p.twitterDescription);
    ExtractionResult(name, role, TwitterCompany, p.url)
  }

  /** `scrapeGeneric`. */
  function ScrapeGeneric(p: Page): (r: ExtractionResult)
    ensures r.url == p.url
    // a heading wins even when its text is empty
    ensures p.firstHeading.Some? ==> r.name == Trim(p.firstHeading.value)
    // otherwise the title up to its first '|', then up to that part's first '-'
    ensures p.firstHeading.None? ==> r.name == Trim(Before(Before(p.title, "|"), "-"))
    ensures var meta := p.metaDescription.GetOr("");
            !Includes(meta, RoleCompanySeparator) ==> r.role == "" && r.company == ""
    ensures var meta := p.metaDescription.GetOr("");
            Includes(meta, RoleCompanySeparator) ==>
              && r.role == Trim(Before(meta, RoleCompanySeparator))
              && r.company == Trim(SplitAny(Before(After(meta, RoleCompanySeparator), RoleCompanySeparator), {'.', ','})[0])
    ensures Trimmed(r.name) && Trimmed(r.role) && Trimmed(r.company)
  {
    var name :=
      if p.firstHeading.Some? then Trim(p.firstHeading.value)
      else (
        var first := Split(p.title, "|")[0];
        SplitFirst(p.title, "|");
        SplitFirst(first, "-");
        Trim(Split(first, "-")[0]));
    // `?.content || ""`: a missing meta tag and an empty content both give ""
    var meta := p.metaDescription.GetOr("");
    var roleCompany :=
      if Includes(meta, RoleCompanySeparator) then
        var parts := Split(meta, RoleCompanySeparator);
        SplitFirst(meta, RoleCompanySeparator);
        SplitSecond(meta, RoleCompanySeparator);
        (Trim(parts[0]), Trim(SplitAny(parts[1], {'.', ','})[0]))
      else ("", "");
    ExtractionResult(name, roleCompany.0, roleCompany.1, p.url)
  }

  /** `scrapePage`: exactly one strategy runs, and every strategy returns four trimmed strings and the URL verbatim. */
  function ScrapePage(p: Page): (r: ExtractionResult)
    ensures Classify(p.url) == LinkedIn ==> r == ScrapeLinkedIn(p)
    ensures Classify(p.url) == Twitter ==> r == ScrapeTwitter(p)
    ensures Classify(p.url) == Generic ==> r == ScrapeGeneric(p)
    ensures r.url == p.url
    ensures Trimmed(r.name) && Trimmed(r.role) && Trimmed(r.company)
  {
    match Classify(p.url)
    case LinkedIn => ScrapeLinkedIn(p)
    case Twitter => ScrapeTwitter(p)
    case Generic => ScrapeGeneric(p)
  }
}
