/**
  The Accept header examples worked through, each stated from the header text: the
  types iterated, the preferred type, or the judgement of a media type. The lemmas
  whose names end in `Of` state the same facts from the entries the header reads as
  (`ExampleHeaders` proves that reading); the `Name` lemmas give the entry a candidate
  media type reads as.
*/
module AcceptCases {
  import opened Wrappers
  import opened Text
  import opened Entries
  import opened Ranking
  import opened Preference
  import opened Accept
  import opened Cases
  import ExampleHeaders

  /** `text/html`: the one range is iterated. */
  lemma SingleTypeOf(html: Entry)
    requires html == Entry("text/html", [], 1000, 0)
    ensures Types([html]) == ["text/html"]
  {
    RankIs1([html], html);
    TypesOf([html], [html]);
    FormatAll1(html, "text/html");
  }

  /** `text/html; q=0.2`: a range is iterated without its quality. */
  lemma SingleTypeQualityOf(low: Entry)
    requires low == Entry("text/html", [], 200, 0)
    ensures Types([low]) == ["text/html"]
  {
    RankIs1([low], low);
    TypesOf([low], [low]);
    FormatAll1(low, "text/html");
  }

  /** `text/html;level=1`: a range is iterated with its parameters. */
  lemma SingleTypeLevelOf(level: Entry)
    requires level == Entry("text/html", [Param("level", Some("1"))], 1000, 0)
    ensures Types([level]) == ["text/html;level=1"]
  {
    assert Format(level) == "text/html;level=1";
    RankIs1([level], level);
    TypesOf([level], [level]);
    FormatAll1(level, "text/html;level=1");
  }

  /** `text/html;josh="hello";q=0.1`: a quoted parameter value is iterated as written. */
  lemma SingleTypeQuotedOf(josh: Entry)
    requires josh == Entry("text/html", [Param("josh", Some("\"hello\""))], 100, 0)
    ensures Types([josh]) == ["text/html;josh=\"hello\""]
  {
    assert Format(josh) == "text/html;josh=\"hello\"";
    RankIs1([josh], josh);
    TypesOf([josh], [josh]);
    FormatAll1(josh, "text/html;josh=\"hello\"");
  }

  lemma TextRankedOf(html: Entry, xml: Entry, any: Entry)
    requires html == Entry("text/html", [], 1000, 0)
    requires xml == Entry("text/xml", [Param("level", Some("1"))], 1000, 1)
    requires any == Entry("text/*", [], 1000, 2)
    ensures Rank([html, xml, any]) == [html, xml, any]
  {
    var es := [html, xml, any];
    assert multiset(es) == multiset([html, xml, any]);
    AnchorPlain(html, es);
    AnchorPlain(any, es);
    AnchorOf(xml, es);
    assert forall f | f in es :: !Under(f, xml);
    assert Level(html.token) == 2 && Level(xml.token) == 2 && Level(any.token) == 1;
    RankIs3(es, html, xml, any);
  }

  // `text/html, text/xml;level=1, text/*`: exact types in the order written, then the partial wildcard.
  lemma TextTypesOf(html: Entry, xml: Entry, any: Entry)
    requires html == Entry("text/html", [], 1000, 0)
    requires xml == Entry("text/xml", [Param("level", Some("1"))], 1000, 1)
    requires any == Entry("text/*", [], 1000, 2)
    ensures Types([html, xml, any]) == ["text/html", "text/xml;level=1", "text/*"]
  {
    var es := [html, xml, any];
    TextRankedOf(html, xml, any);
    TypesOf(es, [html, xml, any]);
    TextTextsOf(html, xml, any);
  }

  lemma TextTextsOf(html: Entry, xml: Entry, any: Entry)
    requires html == Entry("text/html", [], 1000, 0)
    requires xml == Entry("text/xml", [Param("level", Some("1"))], 1000, 1)
    requires any == Entry("text/*", [], 1000, 2)
    ensures FormatAll([html, xml, any]) == ["text/html", "text/xml;level=1", "text/*"]
  {
    assert Format(xml) == "text/xml;level=1";
    FormatAll3(html, xml, any, "text/html", "text/xml;level=1", "text/*");
  }

  /** `text/plain; q=0.5, text/html, text/x-dvi; q=0.8, text/x-c`: ahead facts. */
  lemma PlainAheadOf(plain: Entry, html: Entry, dvi: Entry, xc: Entry)
    requires plain == Entry("text/plain", [], 500, 0) && html == Entry("text/html", [], 1000, 1)
    requires dvi == Entry("text/x-dvi", [], 800, 2) && xc == Entry("text/x-c", [], 1000, 3)
    ensures var es := [plain, html, dvi, xc];
      Ahead(html, xc, es) && Ahead(xc, dvi, es) && Ahead(dvi, plain, es)
  {
    var es := [plain, html, dvi, xc];
    AnchorPlain(html, es);
    AnchorPlain(xc, es);
  }

  lemma PlainRankedOf(plain: Entry, html: Entry, dvi: Entry, xc: Entry)
    requires plain == Entry("text/plain", [], 500, 0) && html == Entry("text/html", [], 1000, 1)
    requires dvi == Entry("text/x-dvi", [], 800, 2) && xc == Entry("text/x-c", [], 1000, 3)
    ensures Rank([plain, html, dvi, xc]) == [html, xc, dvi, plain]
  {
    assert multiset([plain, html, dvi, xc]) == multiset([html, xc, dvi, plain]);
    PlainAheadOf(plain, html, dvi, xc);
    RankIs4([plain, html, dvi, xc], html, xc, dvi, plain);
  }

  /** The ranges iterated are the acceptable ones in ranked order, all of them here. */
  lemma PlainListedOf(plain: Entry, html: Entry, dvi: Entry, xc: Entry)
    requires plain == Entry("text/plain", [], 500, 0) && html == Entry("text/html", [], 1000, 1)
    requires dvi == Entry("text/x-dvi", [], 800, 2) && xc == Entry("text/x-c", [], 1000, 3)
    ensures Types([plain, html, dvi, xc]) == FormatAll([html, xc, dvi, plain])
  {
    var es := [plain, html, dvi, xc];
    PlainRankedOf(plain, html, dvi, xc);
    TypesOf(es, [html, xc, dvi, plain]);
  }

  /**
    `text/plain; q=0.5, text/html, text/x-dvi; q=0.8, text/x-c`: the full-quality
    types in the order written, then the others by falling quality.
  */
  lemma PlainTypesOf(plain: Entry, html: Entry, dvi: Entry, xc: Entry)
    requires plain == Entry("text/plain", [], 500, 0) && html == Entry("text/html", [], 1000, 1)
    requires dvi == Entry("text/x-dvi", [], 800, 2) && xc == Entry("text/x-c", [], 1000, 3)
    ensures Types([plain, html, dvi, xc]) == ["text/html", "text/x-c", "text/x-dvi", "text/plain"]
  {
    var es := [plain, html, dvi, xc];
    calc {
      Types(es);
    == { PlainListedOf(plain, html, dvi, xc); }
      FormatAll([html, xc, dvi, plain]);
    == { PlainTextsOf(plain, html, dvi, xc); }
      ["text/html", "text/x-c", "text/x-dvi", "text/plain"];
    }
  }

  lemma PlainTextsOf(plain: Entry, html: Entry, dvi: Entry, xc: Entry)
    requires plain == Entry("text/plain", [], 500, 0) && html == Entry("text/html", [], 1000, 1)
    requires dvi == Entry("text/x-dvi", [], 800, 2) && xc == Entry("text/x-c", [], 1000, 3)
    ensures FormatAll([html, xc, dvi, plain]) == ["text/html", "text/x-c", "text/x-dvi", "text/plain"]
  {
    FormatAll4(html, xc, dvi, plain, "text/html", "text/x-c", "text/x-dvi", "text/plain");
  }

  /** `text/plain; q=0.5, text/html, text/x-dvi; q=0.8, text/x-c`: the first full-quality type is preferred. */
  lemma PlainPreferredOf(plain: Entry, html: Entry, dvi: Entry, xc: Entry)
    requires plain == Entry("text/plain", [], 500, 0) && html == Entry("text/html", [], 1000, 1)
    requires dvi == Entry("text/x-dvi", [], 800, 2) && xc == Entry("text/x-c", [], 1000, 3)
    ensures PreferredType([plain, html, dvi, xc]) == Some("text/html")
  {
    PlainTypesOf(plain, html, dvi, xc);
  }

  // `audio/*; q=0.2, audio/basic`: the exact type first.
  lemma AudioTypesOf(any: Entry, basic: Entry)
    requires any == Entry("audio/*", [], 200, 0) && basic == Entry("audio/basic", [], 1000, 1)
    ensures Types([any, basic]) == ["audio/basic", "audio/*"]
  {
    var es := [any, basic];
    assert multiset(es) == multiset([basic, any]);
    RankIs2(es, basic, any);
    TypesOf(es, [basic, any]);
    AudioTextsOf(any, basic);
  }

  lemma AudioTextsOf(any: Entry, basic: Entry)
    requires any == Entry("audio/*", [], 200, 0) && basic == Entry("audio/basic", [], 1000, 1)
    ensures FormatAll([basic, any]) == ["audio/basic", "audio/*"]
  {
    FormatAll2(basic, any, "audio/basic", "audio/*");
  }

  // `audio/*; q=0.2, audio/basic`: the exact type is preferred.
  lemma AudioPreferredOf(any: Entry, basic: Entry)
    requires any == Entry("audio/*", [], 200, 0) && basic == Entry("audio/basic", [], 1000, 1)
    ensures PreferredType([any, basic]) == Some("audio/basic")
  {
    AudioTypesOf(any, basic);
  }

  // `text/*, text/html, text/html;level=1, */*`: ahead facts.
  lemma LevelAheadOf(any: Entry, html: Entry, level: Entry, all: Entry)
    requires any == Entry("text/*", [], 1000, 0) && html == Entry("text/html", [], 1000, 1)
    requires level == Entry("text/html", [Param("level", Some("1"))], 1000, 2)
    requires all == Entry("*/*", [], 1000, 3)
    ensures var es := [any, html, level, all];
      Ahead(level, html, es) && Ahead(html, any, es) && Ahead(any, all, es)
  {
    var es := [any, html, level, all];
    AnchorPlain(html, es);
    AnchorOf(level, es);
    assert html in es && Under(html, level);
    assert Level(any.token) == 1 && Level(html.token) == 2 && Level(all.token) == 0;
  }

  lemma LevelRankedOf(any: Entry, html: Entry, level: Entry, all: Entry)
    requires any == Entry("text/*", [], 1000, 0) && html == Entry("text/html", [], 1000, 1)
    requires level == Entry("text/html", [Param("level", Some("1"))], 1000, 2)
    requires all == Entry("*/*", [], 1000, 3)
    ensures Rank([any, html, level, all]) == [level, html, any, all]
  {
    assert multiset([any, html, level, all]) == multiset([level, html, any, all]);
    LevelAheadOf(any, html, level, all);
    RankIs4([any, html, level, all], level, html, any, all);
  }

  /** The ranges iterated are the acceptable ones in ranked order, all of them here. */
  lemma LevelListedOf(any: Entry, html: Entry, level: Entry, all: Entry)
    requires any == Entry("text/*", [], 1000, 0) && html == Entry("text/html", [], 1000, 1)
    requires level == Entry("text/html", [Param("level", Some("1"))], 1000, 2)
    requires all == Entry("*/*", [], 1000, 3)
    ensures Types([any, html, level, all]) == FormatAll([level, html, any, all])
  {
    var es := [any, html, level, all];
    LevelRankedOf(any, html, level, all);
    TypesOf(es, [level, html, any, all]);
  }

  // `text/*, text/html, text/html;level=1, */*`: the narrower ranges first, and of the
  // two `text/html` ranges the one with a parameter.
  lemma LevelTypesOf(any: Entry, html: Entry, level: Entry, all: Entry)
    requires any == Entry("text/*", [], 1000, 0) && html == Entry("text/html", [], 1000, 1)
    requires level == Entry("text/html", [Param("level", Some("1"))], 1000, 2)
    requires all == Entry("*/*", [], 1000, 3)
    ensures Types([any, html, level, all]) == ["text/html;level=1", "text/html", "text/*", "*/*"]
  {
    var es := [any, html, level, all];
    calc {
      Types(es);
    == { LevelListedOf(any, html, level, all); }
      FormatAll([level, html, any, all]);
    == { LevelTextsOf(any, html, level, all); }
      ["text/html;level=1", "text/html", "text/*", "*/*"];
    }
  }

  lemma LevelTextsOf(any: Entry, html: Entry, level: Entry, all: Entry)
    requires any == Entry("text/*", [], 1000, 0) && html == Entry("text/html", [], 1000, 1)
    requires level == Entry("text/html", [Param("level", Some("1"))], 1000, 2)
    requires all == Entry("*/*", [], 1000, 3)
    ensures FormatAll([level, html, any, all]) == ["text/html;level=1", "text/html", "text/*", "*/*"]
  {
    assert Format(level) == "text/html;level=1";
    FormatAll4(level, html, any, all, "text/html;level=1", "text/html", "text/*", "*/*");
  }

  // `text/*, text/html, text/html;level=1, */*`: the range with a parameter is preferred.
  lemma LevelPreferredOf(any: Entry, html: Entry, level: Entry, all: Entry)
    requires any == Entry("text/*", [], 1000, 0) && html == Entry("text/html", [], 1000, 1)
    requires level == Entry("text/html", [Param("level", Some("1"))], 1000, 2)
    requires all == Entry("*/*", [], 1000, 3)
    ensures PreferredType([any, html, level, all]) == Some("text/html;level=1")
  {
    LevelTypesOf(any, html, level, all);
  }

  // A browser's header, `text/html,application/xhtml+xml,application/xml;q=0.9,*/*;q=0.8,application/json`:
  // ahead facts.
  lemma BrowserAheadOf(html: Entry, xhtml: Entry, xml: Entry, all: Entry, json: Entry)
    requires html == Entry("text/html", [], 1000, 0) && xhtml == Entry("application/xhtml+xml", [], 1000, 1)
    requires xml == Entry("application/xml", [], 900, 2) && all == Entry("*/*", [], 800, 3)
    requires json == Entry("application/json", [], 1000, 4)
    ensures var es := [html, xhtml, xml, all, json];
      Ahead(html, xhtml, es) && Ahead(xhtml, json, es) && Ahead(json, xml, es) && Ahead(xml, all, es)
  {
    var es := [html, xhtml, xml, all, json];
    AnchorPlain(html, es);
    AnchorPlain(xhtml, es);
    AnchorPlain(json, es);
    assert Level(html.token) == 2 && Level(xhtml.token) == 2 && Level(json.token) == 2;
  }

  lemma BrowserRankedOf(html: Entry, xhtml: Entry, xml: Entry, all: Entry, json: Entry)
    requires html == Entry("text/html", [], 1000, 0) && xhtml == Entry("application/xhtml+xml", [], 1000, 1)
    requires xml == Entry("application/xml", [], 900, 2) && all == Entry("*/*", [], 800, 3)
    requires json == Entry("application/json", [], 1000, 4)
    ensures Rank([html, xhtml, xml, all, json]) == [html, xhtml, json, xml, all]
  {
    assert multiset([html, xhtml, xml, all, json]) == multiset([html, xhtml, json, xml, all]);
    BrowserAheadOf(html, xhtml, xml, all, json);
    RankIs5([html, xhtml, xml, all, json], html, xhtml, json, xml, all);
  }

  /** The ranges iterated are the acceptable ones in ranked order, all of them here. */
  lemma BrowserListedOf(html: Entry, xhtml: Entry, xml: Entry, all: Entry, json: Entry)
    requires html == Entry("text/html", [], 1000, 0) && xhtml == Entry("application/xhtml+xml", [], 1000, 1)
    requires xml == Entry("application/xml", [], 900, 2) && all == Entry("*/*", [], 800, 3)
    requires json == Entry("application/json", [], 1000, 4)
    ensures Types([html, xhtml, xml, all, json]) == FormatAll([html, xhtml, json, xml, all])
  {
    var es := [html, xhtml, xml, all, json];
    BrowserRankedOf(html, xhtml, xml, all, json);
    TypesOf(es, [html, xhtml, json, xml, all]);
  }

  // The browser's header: the full-quality types in the order written, then the others by falling quality.
  lemma BrowserTypesOf(html: Entry, xhtml: Entry, xml: Entry, all: Entry, json: Entry)
    requires html == Entry("text/html", [], 1000, 0) && xhtml == Entry("application/xhtml+xml", [], 1000, 1)
    requires xml == Entry("application/xml", [], 900, 2) && all == Entry("*/*", [], 800, 3)
    requires json == Entry("application/json", [], 1000, 4)
    ensures Types([html, xhtml, xml, all, json]) == ["text/html", "application/xhtml+xml", "application/json", "application/xml", "*/*"]
  {
    var es := [html, xhtml, xml, all, json];
    calc {
      Types(es);
    == { BrowserListedOf(html, xhtml, xml, all, json); }
      FormatAll([html, xhtml, json, xml, all]);
    == { BrowserTextsOf(html, xhtml, xml, all, json); }
      ["text/html", "application/xhtml+xml", "application/json", "application/xml", "*/*"];
    }
  }

  lemma BrowserTextsOf(html: Entry, xhtml: Entry, xml: Entry, all: Entry, json: Entry)
    requires html == Entry("text/html", [], 1000, 0) && xhtml == Entry("application/xhtml+xml", [], 1000, 1)
    requires xml == Entry("application/xml", [], 900, 2) && all == Entry("*/*", [], 800, 3)
    requires json == Entry("application/json", [], 1000, 4)
    ensures FormatAll([html, xhtml, json, xml, all]) == ["text/html", "application/xhtml+xml", "application/json", "application/xml", "*/*"]
  {
    FormatAll5(html, xhtml, json, xml, all, "text/html", "application/xhtml+xml", "application/json", "application/xml", "*/*");
  }

  // The browser's header: `application/xhtml+xml` is accepted by its own range, the most
  // specific one matching it.
  lemma BrowserAcceptsXhtmlJudged(html: Entry, xhtml: Entry, xml: Entry, all: Entry, json: Entry, c: Entry)
    requires html == Entry("text/html", [], 1000, 0) && xhtml == Entry("application/xhtml+xml", [], 1000, 1)
    requires xml == Entry("application/xml", [], 900, 2) && all == Entry("*/*", [], 800, 3)
    requires json == Entry("application/json", [], 1000, 4)
    requires c == Entry("application/xhtml+xml", [], 1000, 0)
    ensures Judge([html, xhtml, xml, all, json], c) == Match(2, 0, true)
  {
    assert Level(html.token) == 2 && Level(xhtml.token) == 2 && Level(xml.token) == 2;
    assert Level(all.token) == 0 && Level(json.token) == 2;
    assert !Matches(json, c) && Matches(all, c) && !Matches(xml, c) && Matches(xhtml, c) && !Matches(html, c);
    var v := Weigh(all, c, Weigh(json, c, NoMatch));
    assert v == Match(0, 0, true);
    assert Weigh(xhtml, c, Weigh(xml, c, v)) == Match(2, 0, true);
    Judge5(html, xhtml, xml, all, json, c);
  }

  // The browser's header: `application/json`, written last, is accepted by its own range.
  lemma BrowserAcceptsJsonJudged(html: Entry, xhtml: Entry, xml: Entry, all: Entry, json: Entry, c: Entry)
    requires html == Entry("text/html", [], 1000, 0) && xhtml == Entry("application/xhtml+xml", [], 1000, 1)
    requires xml == Entry("application/xml", [], 900, 2) && all == Entry("*/*", [], 800, 3)
    requires json == Entry("application/json", [], 1000, 4)
    requires c == Entry("application/json", [], 1000, 0)
    ensures Judge([html, xhtml, xml, all, json], c) == Match(2, 0, true)
  {
    assert Level(html.token) == 2 && Level(xhtml.token) == 2 && Level(xml.token) == 2;
    assert Level(all.token) == 0 && Level(json.token) == 2;
    assert Matches(json, c) && Matches(all, c) && !Matches(xml, c) && !Matches(xhtml, c) && !Matches(html, c);
    var v := Weigh(all, c, Weigh(json, c, NoMatch));
    assert v == Match(2, 0, true);
    assert Weigh(html, c, Weigh(xhtml, c, Weigh(xml, c, v))) == v;
    Judge5(html, xhtml, xml, all, json, c);
  }

  // `audio/*; q=0.2, audio/basic`: the exact type is acceptable, judged by its own entry.
  lemma AudioAcceptsBasicJudged(any: Entry, basic: Entry, c: Entry)
    requires any == Entry("audio/*", [], 200, 0) && basic == Entry("audio/basic", [], 1000, 1)
    requires c == Entry("audio/basic", [], 1000, 0)
    ensures Judge([any, basic], c) == Match(2, 0, true)
  {
    assert Level(any.token) == 1 && Level(basic.token) == 2;
    assert Matches(basic, c);
    Judge2(any, basic, c);
  }

  // `audio/*; q=0.2, audio/basic`: another audio type is acceptable through the wildcard.
  lemma AudioAcceptsOtherJudged(any: Entry, basic: Entry, c: Entry)
    requires any == Entry("audio/*", [], 200, 0) && basic == Entry("audio/basic", [], 1000, 1)
    requires c == Entry("audio/mpeg", [], 1000, 0)
    ensures Judge([any, basic], c) == Match(1, 0, true)
  {
    assert Level(any.token) == 1 && Level(basic.token) == 2;
    assert MediaType(any.token) == "audio" == MediaType(c.token);
    assert !Matches(basic, c) && Matches(any, c);
    Judge2(any, basic, c);
  }

  // `audio/*; q=0.2, audio/basic`: a video type is matched by no range, so refused.
  lemma AudioRefusesVideoJudged(any: Entry, basic: Entry, c: Entry)
    requires any == Entry("audio/*", [], 200, 0) && basic == Entry("audio/basic", [], 1000, 1)
    requires c == Entry("video/mpeg", [], 1000, 0)
    ensures Judge([any, basic], c) == NoMatch
  {
    assert Level(any.token) == 1 && Level(basic.token) == 2;
    assert MediaType(any.token) == "audio" && MediaType(c.token) == "video";
    assert !Matches(basic, c) && !Matches(any, c);
    Judge2(any, basic, c);
  }

  /**
    A range listed again after another range of the same quality and specificity keeps
    its written place: `a/a, b/b, a/a` ranks as written.
  */
  lemma RepeatedRange(a0: Entry, b1: Entry, a2: Entry)
    requires a0 == Entry("a/a", [], 1000, 0) && b1 == Entry("b/b", [], 1000, 1) && a2 == Entry("a/a", [], 1000, 2)
    ensures Rank([a0, b1, a2]) == [a0, b1, a2]
  {
    var es := [a0, b1, a2];
    AnchorPlain(a0, es);
    AnchorPlain(b1, es);
    AnchorPlain(a2, es);
    assert Level(a0.token) == 2 && Level(b1.token) == 2;
    RankIs3(es, a0, b1, a2);
  }

  // ---------------------------------------------------------------------------
  // The same examples read from the header text.

  /** `text/html`: the one range is iterated. */
  lemma SingleType()
    ensures Types(ParseHeader(Some("text/html"))) == ["text/html"]
  {
    ExampleHeaders.HtmlHeader();
    SingleTypeOf(Entry("text/html", [], 1000, 0));
  }

  /** `text/html; q=0.2`: the range is iterated without its quality. */
  lemma SingleTypeQuality()
    ensures Types(ParseHeader(Some("text/html; q=0.2"))) == ["text/html"]
  {
    ExampleHeaders.HtmlLowHeader();
    SingleTypeQualityOf(Entry("text/html", [], 200, 0));
  }

  /** `text/html;level=1`: the range is iterated with its parameter. */
  lemma SingleTypeLevel()
    ensures Types(ParseHeader(Some("text/html;level=1"))) == ["text/html;level=1"]
  {
    ExampleHeaders.HtmlLevelHeader();
    SingleTypeLevelOf(Entry("text/html", [Param("level", Some("1"))], 1000, 0));
  }

  /**
    `text/html;josh="hello";q=0.1`, with or without a space before `q`: the quoted
    value is iterated as written and the quality is dropped.
  */
  lemma SingleTypeQuoted()
    ensures Types(ParseHeader(Some("text/html;josh=\"hello\";q=0.1"))) == ["text/html;josh=\"hello\""]
    ensures Types(ParseHeader(Some("text/html;josh=\"hello\"; q=0.1"))) == ["text/html;josh=\"hello\""]
  {
    ExampleHeaders.HtmlJoshHeader();
    ExampleHeaders.HtmlJoshSpacedHeader();
    SingleTypeQuotedOf(Entry("text/html", [Param("josh", Some("\"hello\""))], 100, 0));
  }

  // `text/html, text/xml;level=1, text/*`: exact types in the order written, then the partial wildcard.
  lemma TextTypes()
    ensures Types(ParseHeader(Some("text/html, text/xml;level=1, text/*"))) == ["text/html", "text/xml;level=1", "text/*"]
  {
    ExampleHeaders.TextHeader();
    TextTypesOf(Entry("text/html", [], 1000, 0), Entry("text/xml", [Param("level", Some("1"))], 1000, 1), Entry("text/*", [], 1000, 2));
  }

  // `audio/*; q=0.2, audio/basic`: the exact type first, and it is preferred.
  lemma AudioTypes()
    ensures Types(ParseHeader(Some("audio/*; q=0.2, audio/basic"))) == ["audio/basic", "audio/*"]
    ensures PreferredType(ParseHeader(Some("audio/*; q=0.2, audio/basic"))) == Some("audio/basic")
  {
    ExampleHeaders.AudioHeader();
    AudioPreferredOf(Entry("audio/*", [], 200, 0), Entry("audio/basic", [], 1000, 1));
    AudioTypesOf(Entry("audio/*", [], 200, 0), Entry("audio/basic", [], 1000, 1));
  }

  /**
    `text/plain; q=0.5, text/html, text/x-dvi; q=0.8, text/x-c`: the full-quality types
    in the order written, then the others by falling quality; the first is preferred.
  */
  lemma PlainTypes()
    ensures Types(ParseHeader(Some("text/plain; q=0.5, text/html, text/x-dvi; q=0.8, text/x-c")))
      == ["text/html", "text/x-c", "text/x-dvi", "text/plain"]
    ensures PreferredType(ParseHeader(Some("text/plain; q=0.5, text/html, text/x-dvi; q=0.8, text/x-c"))) == Some("text/html")
  {
    ExampleHeaders.PlainHeader();
    var plain, html, dvi, xc := Entry("text/plain", [], 500, 0), Entry("text/html", [], 1000, 1), Entry("text/x-dvi", [], 800, 2), Entry("text/x-c", [], 1000, 3);
    PlainTypesOf(plain, html, dvi, xc);
    PlainPreferredOf(plain, html, dvi, xc);
  }

  // `text/*, text/html, text/html;level=1, */*`: the narrower ranges first, and of the
  // two `text/html` ranges the one with a parameter, which is preferred.
  lemma LevelTypes()
    ensures Types(ParseHeader(Some("text/*, text/html, text/html;level=1, */*")))
      == ["text/html;level=1", "text/html", "text/*", "*/*"]
    ensures PreferredType(ParseHeader(Some("text/*, text/html, text/html;level=1, */*"))) == Some("text/html;level=1")
  {
    ExampleHeaders.LevelsHeader();
    var any, html, level, all := Entry("text/*", [], 1000, 0), Entry("text/html", [], 1000, 1), Entry("text/html", [Param("level", Some("1"))], 1000, 2), Entry("*/*", [], 1000, 3);
    LevelTypesOf(any, html, level, all);
    LevelPreferredOf(any, html, level, all);
  }

  /** A browser's header: the full-quality types in the order written, then the others by falling quality. */
  lemma BrowserTypes()
    ensures Types(ParseHeader(Some("text/html,application/xhtml+xml,application/xml;q=0.9,*/*;q=0.8,application/json")))
      == ["text/html", "application/xhtml+xml", "application/json", "application/xml", "*/*"]
  {
    ExampleHeaders.BrowserHeader();
    BrowserTypesOf(Entry("text/html", [], 1000, 0), Entry("application/xhtml+xml", [], 1000, 1),
      Entry("application/xml", [], 900, 2), Entry("*/*", [], 800, 3), Entry("application/json", [], 1000, 4));
  }

  /** A media type written without parameters, quotes or surrounding space is read as itself at full quality. */
  lemma PlainName(candidate: string)
    requires ';' !in candidate && '"' !in candidate && Trimmed(candidate)
    ensures Candidate(candidate) == Entry(candidate, [], 1000, 0)
  {
    TrimTrimmed(candidate);
  }

  lemma BasicName()
    ensures Candidate("audio/basic") == Entry("audio/basic", [], 1000, 0)
  {
    PlainName("audio/basic");
  }

  lemma MpegName()
    ensures Candidate("audio/mpeg") == Entry("audio/mpeg", [], 1000, 0)
  {
    PlainName("audio/mpeg");
  }

  lemma VideoName()
    ensures Candidate("video/mpeg") == Entry("video/mpeg", [], 1000, 0)
  {
    PlainName("video/mpeg");
  }

  lemma XhtmlName()
    ensures Candidate("application/xhtml+xml") == Entry("application/xhtml+xml", [], 1000, 0)
  {
    PlainName("application/xhtml+xml");
  }

  lemma JsonName()
    ensures Candidate("application/json") == Entry("application/json", [], 1000, 0)
  {
    PlainName("application/json");
  }

  lemma AudioAcceptsBasicOf(any: Entry, basic: Entry)
    requires any == Entry("audio/*", [], 200, 0) && basic == Entry("audio/basic", [], 1000, 1)
    ensures IsAccepted([any, basic], "audio/basic")
  {
    BasicName();
    AudioAcceptsBasicJudged(any, basic, Candidate("audio/basic"));
  }

  // `audio/*; q=0.2, audio/basic`: `audio/basic` is accepted by its own range.
  lemma AudioAcceptsBasic()
    ensures IsAccepted(ParseHeader(Some("audio/*; q=0.2, audio/basic")), "audio/basic")
  {
    ExampleHeaders.AudioHeader();
    AudioAcceptsBasicOf(Entry("audio/*", [], 200, 0), Entry("audio/basic", [], 1000, 1));
  }

  lemma AudioAcceptsOtherOf(any: Entry, basic: Entry)
    requires any == Entry("audio/*", [], 200, 0) && basic == Entry("audio/basic", [], 1000, 1)
    ensures IsAccepted([any, basic], "audio/mpeg")
  {
    MpegName();
    AudioAcceptsOtherJudged(any, basic, Candidate("audio/mpeg"));
  }

  // `audio/*; q=0.2, audio/basic`: `audio/mpeg` is accepted through the wildcard.
  lemma AudioAcceptsOther()
    ensures IsAccepted(ParseHeader(Some("audio/*; q=0.2, audio/basic")), "audio/mpeg")
  {
    ExampleHeaders.AudioHeader();
    AudioAcceptsOtherOf(Entry("audio/*", [], 200, 0), Entry("audio/basic", [], 1000, 1));
  }

  lemma AudioRefusesVideoOf(any: Entry, basic: Entry)
    requires any == Entry("audio/*", [], 200, 0) && basic == Entry("audio/basic", [], 1000, 1)
    ensures !IsAccepted([any, basic], "video/mpeg")
  {
    VideoName();
    AudioRefusesVideoJudged(any, basic, Candidate("video/mpeg"));
  }

  // `audio/*; q=0.2, audio/basic`: `video/mpeg`, which no range matches, is refused.
  lemma AudioRefusesVideo()
    ensures !IsAccepted(ParseHeader(Some("audio/*; q=0.2, audio/basic")), "video/mpeg")
  {
    ExampleHeaders.AudioHeader();
    AudioRefusesVideoOf(Entry("audio/*", [], 200, 0), Entry("audio/basic", [], 1000, 1));
  }

  lemma BrowserAcceptsXhtmlOf(html: Entry, xhtml: Entry, xml: Entry, all: Entry, json: Entry)
    requires html == Entry("text/html", [], 1000, 0) && xhtml == Entry("application/xhtml+xml", [], 1000, 1)
    requires xml == Entry("application/xml", [], 900, 2) && all == Entry("*/*", [], 800, 3)
    requires json == Entry("application/json", [], 1000, 4)
    ensures IsAccepted([html, xhtml, xml, all, json], "application/xhtml+xml")
  {
    XhtmlName();
    BrowserAcceptsXhtmlJudged(html, xhtml, xml, all, json, Candidate("application/xhtml+xml"));
  }

  // A browser's header: `application/xhtml+xml` is accepted by its own range.
  lemma BrowserAcceptsXhtml()
    ensures IsAccepted(ParseHeader(Some("text/html,application/xhtml+xml,application/xml;q=0.9,*/*;q=0.8,application/json")), "application/xhtml+xml")
  {
    ExampleHeaders.BrowserHeader();
    BrowserAcceptsXhtmlOf(Entry("text/html", [], 1000, 0), Entry("application/xhtml+xml", [], 1000, 1),
      Entry("application/xml", [], 900, 2), Entry("*/*", [], 800, 3), Entry("application/json", [], 1000, 4));
  }

  lemma BrowserAcceptsJsonOf(html: Entry, xhtml: Entry, xml: Entry, all: Entry, json: Entry)
    requires html == Entry("text/html", [], 1000, 0) && xhtml == Entry("application/xhtml+xml", [], 1000, 1)
    requires xml == Entry("application/xml", [], 900, 2) && all == Entry("*/*", [], 800, 3)
    requires json == Entry("application/json", [], 1000, 4)
    ensures IsAccepted([html, xhtml, xml, all, json], "application/json")
  {
    JsonName();
    BrowserAcceptsJsonJudged(html, xhtml, xml, all, json, Candidate("application/json"));
  }

  // A browser's header: `application/json`, written last, is accepted by its own range.
  lemma BrowserAcceptsJson()
    ensures IsAccepted(ParseHeader(Some("text/html,application/xhtml+xml,application/xml;q=0.9,*/*;q=0.8,application/json")), "application/json")
  {
    ExampleHeaders.BrowserHeader();
    BrowserAcceptsJsonOf(Entry("text/html", [], 1000, 0), Entry("application/xhtml+xml", [], 1000, 1),
      Entry("application/xml", [], 900, 2), Entry("*/*", [], 800, 3), Entry("application/json", [], 1000, 4));
  }

  /**
    `text/html;q=0, text/html`: an explicit refusal is absolute, so listing the same
    range again above quality zero does not make the type acceptable.
  */
  lemma RefusedTwice(no: Entry, yes: Entry)
    requires no == Entry("text/html", [], 0, 0) && yes == Entry("text/html", [], 1000, 1)
    ensures !IsAccepted([no, yes], "text/html")
  {
    PlainName("text/html");
    RefusedExactly([no, yes], Entry("text/html", [], 1000, 0));
  }
}
