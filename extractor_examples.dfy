/**
 * Worked examples of the extractor on concrete pages. Each is proved from the
 * general lemmas of JsStrings by cutting the literal text at the separators
 * the extractor looks for; the facts about each literal piece are small
 * lemmas of their own.
 */
module ExtractorExamples {
  import opened Wrappers
  import opened JsStrings
  import opened ContentScript

  /** A profile path beats "x.com" later in the URL. */
  lemma ClassifyProfileExample(url: string)
    requires url == "https://www.linkedin.com/in/jane-doe/?via=x.com"
    ensures Classify(url) == LinkedIn
  {
    assert url == url[..12] + LinkedInProfilePath + url[28..];
    OccursBetween(url[..12], LinkedInProfilePath, url[28..]);
  }

  /** "netflix.com" contains "x.com", so it goes to the Twitter strategy. */
  lemma ClassifyNetflixExample(url: string)
    requires url == "https://www.netflix.com/browse"
    ensures Classify(url) == Twitter
  {
    assert url == url[..18] + XHost + url[23..];
    OccursBetween(url[..18], XHost, url[23..]);
    assert 'k' !in url;
    AbsentCharNotIncluded(url, LinkedInProfilePath, 'k');
  }

  /** A URL none of the tests match goes to the generic strategy. */
  lemma ClassifyGenericExample(url: string)
    requires url == "https://example.org/team"
    ensures Classify(url) == Generic
  {
    assert 'k' !in url && 'w' !in url && 'c' !in url;
    AbsentCharNotIncluded(url, LinkedInProfilePath, 'k');
    AbsentCharNotIncluded(url, TwitterHost, 'w');
    AbsentCharNotIncluded(url, XHost, 'c');
  }

  /** A trimmed headline "x at y" where `x` has no space: the company is the trimmed text of `y` up to its own first " at ". */
  lemma LinkedInCompanyOf(p: Page, x: string, y: string)
    requires p.linkedInHeadline == Some(x + RoleCompanySeparator + y) && Trimmed(x + RoleCompanySeparator + y)
    requires ' ' !in x
    ensures ScrapeLinkedIn(p).company == Trim(Before(y, RoleCompanySeparator))
  {
    LeadingCharAbsent(x, RoleCompanySeparator + y, RoleCompanySeparator);
    FirstSeparator(x, RoleCompanySeparator, y);
    TrimOfTrimmed(x + RoleCompanySeparator + y);
  }

  /** A trimmed text without " at " (here: without a 't') is its own text up to " at ", trimmed. */
  lemma NoSeparatorTrimmed(y: string)
    requires 't' !in y && Trimmed(y)
    ensures Trim(Before(y, RoleCompanySeparator)) == y
  {
    AbsentCharNotIncluded(y, RoleCompanySeparator, 't');
    TrimOfTrimmed(y);
  }

  /** "Engineer at Acme Corp" is a headline whose company is "Acme Corp". */
  lemma LinkedInCompanyExample(p: Page)
    requires p.linkedInHeadline == Some("Engineer at Acme Corp")
    ensures ScrapeLinkedIn(p).company == "Acme Corp"
  {
    var role := p.linkedInHeadline.value;
    assert role == role[..8] + RoleCompanySeparator + role[12..];
    assert ' ' !in role[..8] && 't' !in role[12..] && Trimmed(role[12..]);
    LinkedInCompanyOf(p, role[..8], role[12..]);
    NoSeparatorTrimmed(role[12..]);
  }

  /** With two " at " in the headline the company is only the text between them. */
  lemma LinkedInSecondSeparatorExample(p: Page)
    requires p.linkedInHeadline == Some("A at B at C")
    ensures ScrapeLinkedIn(p).company == "B"
  {
    var role := p.linkedInHeadline.value;
    assert role == role[..1] + RoleCompanySeparator + role[5..];
    assert ' ' !in role[..1];
    LinkedInCompanyOf(p, role[..1], role[5..]);
    BCompany(role[5..]);
  }

  lemma BCompany(y: string)
    requires y == "B at C"
    ensures Trim(Before(y, RoleCompanySeparator)) == "B"
  {
    assert y == y[..1] + RoleCompanySeparator + y[5..];
    assert ' ' !in y[..1];
    LeadingCharAbsent(y[..1], RoleCompanySeparator + y[5..], RoleCompanySeparator);
    FirstSeparator(y[..1], RoleCompanySeparator, y[5..]);
    TrimOfTrimmed(y[..1]);
  }

  /** A name followed by one space, then a one-character separator and anything: before the separator, trimmed, is the name. */
  lemma NameBeforeSeparator(t: string, n: string, sep: string, rest: string)
    requires |sep| == 1 && t == n + " " + sep + rest
    requires sep[0] !in n && sep[0] != ' ' && Trimmed(n)
    ensures Before(t, sep) == n + " "
    ensures Trim(n + " ") == n
  {
    assert sep[0] !in n + " ";
    LeadingCharAbsent(n + " ", sep + rest, sep);
    FirstSeparator(n + " ", sep, rest);
    assert n + " " == [] + n + " " && AllSpace(" ");
    TrimUnique([], n, " ");
  }

  /** Without the user-name span, the title "Jane Doe (@jane) / X" names "Jane Doe". */
  lemma TwitterTitleExample(p: Page)
    requires p.twitterUserName.None? && p.title == "Jane Doe (@jane) / X"
    ensures ScrapeTwitter(p).name == "Jane Doe"
  {
    JaneDoeTitle(p.title);
  }

  lemma JaneDoeTitle(t: string)
    requires t == "Jane Doe (@jane) / X"
    ensures Trim(Before(t, "(")) == "Jane Doe"
  {
    var n := t[..8];
    assert n == "Jane Doe";
    assert t == n + " " + "(" + t[10..];
    assert '(' !in n && n[0] == 'J' && n[7] == 'e';
    NameBeforeSeparator(t, n, "(", t[10..]);
  }

  /** Without a heading, the title "Jane Doe | Home" names "Jane Doe". */
  lemma GenericTitleExample(p: Page)
    requires p.firstHeading.None? && p.title == "Jane Doe | Home"
    ensures ScrapeGeneric(p).name == "Jane Doe"
  {
    JaneDoeHomeTitle(p.title);
  }

  lemma JaneDoeHomeTitle(t: string)
    requires t == "Jane Doe | Home"
    ensures Trim(Before(Before(t, "|"), "-")) == "Jane Doe"
  {
    var n := t[..8];
    assert n == "Jane Doe";
    assert t == n + " " + "|" + t[10..];
    assert '|' !in n && '-' !in n && n[0] == 'J' && n[7] == 'e';
    NameBeforeSeparator(t, n, "|", t[10..]);
    AbsentCharNotIncluded(n + " ", "-", '-');
  }

  /** The role part of the meta description example, and what follows its first " at ". */
  lemma SeniorDeveloperRole(x: string, y: string)
    requires x == "Senior Developer" && y == "Example Inc. Remote"
    ensures Includes(x + RoleCompanySeparator + y, RoleCompanySeparator)
    ensures Trim(Before(x + RoleCompanySeparator + y, RoleCompanySeparator)) == "Senior Developer"
    ensures After(x + RoleCompanySeparator + y, RoleCompanySeparator) == y
  {
    assert 't' !in x && ' ' !in x[13..];
    assert x[0] == 'S' && x[15] == 'r';
    NoEarlyOccurrence(x, RoleCompanySeparator + y, RoleCompanySeparator, 't');
    FirstSeparator(x, RoleCompanySeparator, y);
    TrimOfTrimmed(x);
  }

  /** "Example Inc. Remote" holds no " at ". */
  lemma ExampleIncNoSeparator(y1: string, y2: string)
    requires y1 == "Example Inc." && y2 == " Remote"
    ensures Before(y1 + y2, RoleCompanySeparator) == y1 + y2
  {
    assert 't' !in y1 && ' ' !in y1[9..] && 'a' !in y2;
    NoEarlyOccurrence(y1, y2, RoleCompanySeparator, 't');
    BeforeSkip(y1, y2, RoleCompanySeparator);
    AbsentCharNotIncluded(y2, RoleCompanySeparator, 'a');
  }

  /** A string whose first '.' or ',' is at index `|h|` splits on those characters to `h` first. */
  lemma CutAtDot(y: string, h: string)
    requires |y| > |h| && y[..|h|] == h && y[|h|] == '.' && '.' !in h && ',' !in h
    ensures SplitAny(y, {'.', ','})[0] == h
  {
    SplitAnyFirst(y, {'.', ','}, |h|);
  }

  lemma ExampleIncTrimmed(h: string)
    requires h == "Example Inc"
    ensures Trim(h) == h
  {
    assert h[0] == 'E' && h[10] == 'c';
    TrimOfTrimmed(h);
  }

  /** "Example Inc. Remote" cut at its first '.' or ',' is "Example Inc". */
  lemma ExampleIncCut(y: string)
    requires y == "Example Inc. Remote"
    ensures Trim(SplitAny(y, {'.', ','})[0]) == "Example Inc"
  {
    var h := y[..11];
    assert h == "Example Inc" && y[11] == '.';
    assert forall k :: 0 <= k < |h| ==> h[k] != '.' && h[k] != ',';
    CutAtDot(y, h);
    ExampleIncTrimmed(h);
  }

  /** The generic strategy on a meta description whose first " at " is followed by `y`, which holds no other. */
  lemma GenericFromMeta(p: Page, meta: string, y: string)
    requires p.metaDescription == Some(meta) && Includes(meta, RoleCompanySeparator)
    requires After(meta, RoleCompanySeparator) == y && Before(y, RoleCompanySeparator) == y
    ensures ScrapeGeneric(p).role == Trim(Before(meta, RoleCompanySeparator))
    ensures ScrapeGeneric(p).company == Trim(SplitAny(y, {'.', ','})[0])
  {
  }

  /** The meta description "Senior Developer at Example Inc. Remote" gives the role "Senior Developer" and the company "Example Inc". */
  lemma GenericMetaExample(p: Page, x: string, y: string)
    requires x == "Senior Developer" && y == "Example Inc. Remote"
    requires p.metaDescription == Some(x + RoleCompanySeparator + y)
    ensures ScrapeGeneric(p).role == "Senior Developer"
    ensures ScrapeGeneric(p).company == "Example Inc"
  {
    SeniorDeveloperRole(x, y);
    var y1, y2 := y[..12], y[12..];
    assert y == y1 + y2;
    ExampleIncNoSeparator(y1, y2);
    GenericFromMeta(p, x + RoleCompanySeparator + y, y);
    ExampleIncCut(y);
  }
}
