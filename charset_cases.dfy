/**
  The Accept-Charset header examples worked through, each stated from the header
  text: the charsets listed, the preferred charset and the acceptance verdicts. The
  lemmas whose names end in `Of` state the same facts from the entries the header
  reads as, names already in lower case as `Explicit` leaves them; the `Read` lemmas
  prove that reading.
*/
module CharsetCases {
  import opened Wrappers
  import opened Text
  import opened Entries
  import opened Ranking
  import opened Preference
  import opened AcceptCharset
  import opened Cases
  import ExampleHeaders
  import CharsetNames

  /** `ISO-8859-1` and `ISO-8859-1; q=0.2`: a header listing ISO-8859-1 gets no implicit entry. */
  lemma Latin1OnlyOf(full: Entry, low: Entry)
    requires full == Entry("iso-8859-1", [], 1000, 0) && low == Entry("iso-8859-1", [], 200, 0)
    ensures GetCharsets([full]) == ["iso-8859-1"]
    ensures GetCharsets([low]) == ["iso-8859-1"]
  {
    assert full.token == Latin1 && low.token == Latin1;
    assert Complete([full]) == [full];
    assert Complete([low]) == [low];
    RankIs1([full], full);
    RankIs1([low], low);
  }

  /** `UTF-8`: ISO-8859-1 is added after the listed charset. */
  lemma Utf8ImplicitOf(utf: Entry)
    requires utf == Entry("utf-8", [], 1000, 0)
    ensures GetCharsets([utf]) == ["utf-8", "iso-8859-1"]
  {
    var latin := Entry(Latin1, [], 1000, 1);
    assert Complete([utf]) == [utf, latin];
    var es := [utf, latin];
    assert multiset(es) == multiset([utf, latin]);
    Latin1Level();
    assert Level(utf.token) == 2;
    AnchorPlain(utf, es);
    AnchorPlain(latin, es);
    RankIs2(es, utf, latin);
    Tokens2(utf, latin);
  }

  /** `iso-8859-5, unicode-1-1;q=0.8`: no wildcard and no ISO-8859-1, so it is added. */
  lemma ImplicitCompleteOf(iso5: Entry, uni: Entry)
    requires iso5 == Entry("iso-8859-5", [], 1000, 0) && uni == Entry("unicode-1-1", [], 800, 1)
    ensures Complete([iso5, uni]) == [iso5, uni, Entry(Latin1, [], 1000, 2)]
  {
    assert !Mentions([iso5, uni], "*") && !Mentions([iso5, uni], Latin1);
  }

  /** `iso-8859-5, unicode-1-1;q=0.8`: the implicit ISO-8859-1 at full quality ranks before `unicode-1-1`. */
  lemma ImplicitRankedOf(iso5: Entry, uni: Entry)
    requires iso5 == Entry("iso-8859-5", [], 1000, 0) && uni == Entry("unicode-1-1", [], 800, 1)
    ensures Rank(Complete([iso5, uni])) == [iso5, Entry(Latin1, [], 1000, 2), uni]
  {
    var latin := Entry(Latin1, [], 1000, 2);
    var es := [iso5, uni, latin];
    assert multiset(es) == multiset([iso5, latin, uni]);
    ImplicitCompleteOf(iso5, uni);
    Latin1Level();
    assert Level(iso5.token) == 2;
    AnchorPlain(iso5, es);
    AnchorPlain(latin, es);
    RankIs3(es, iso5, latin, uni);
  }

  /** `iso-8859-5, unicode-1-1;q=0.8`: the listing. */
  lemma ImplicitCharsetsOf(iso5: Entry, uni: Entry)
    requires iso5 == Entry("iso-8859-5", [], 1000, 0) && uni == Entry("unicode-1-1", [], 800, 1)
    ensures GetCharsets([iso5, uni]) == ["iso-8859-5", "iso-8859-1", "unicode-1-1"]
  {
    ImplicitRankedOf(iso5, uni);
    Tokens3(iso5, Entry(Latin1, [], 1000, 2), uni);
  }

  /** `iso-8859-5, unicode-1-1;q=0.8`: the first charset is preferred. */
  lemma ImplicitFirstPreferredOf(iso5: Entry, uni: Entry)
    requires iso5 == Entry("iso-8859-5", [], 1000, 0) && uni == Entry("unicode-1-1", [], 800, 1)
    ensures PreferredCharset([iso5, uni]) == Some("iso-8859-5")
  {
    var latin := Entry(Latin1, [], 1000, 2);
    ImplicitRankedOf(iso5, uni);
    ImplicitCompleteOf(iso5, uni);
    WelcomedFirst([iso5, uni, latin], iso5);
    assert FirstWelcomed([iso5, latin, uni], [iso5, uni, latin]) == Some(iso5);
  }

  /** `iso-8859-5, unicode-1-1;q=0.8`: a listed charset below full quality is acceptable. */
  lemma ImplicitAcceptsListedOf(iso5: Entry, uni: Entry)
    requires iso5 == Entry("iso-8859-5", [], 1000, 0) && uni == Entry("unicode-1-1", [], 800, 1)
    ensures IsAccepted([iso5, uni], "unicode-1-1")
  {
    var cs := [iso5, uni, Entry(Latin1, [], 1000, 2)];
    assert uni in cs && uni.token == "unicode-1-1" && uni.quality > 0;
    assert Accepts(cs, "unicode-1-1");
    ImplicitCompleteOf(iso5, uni);
    IsAcceptedLowerCase([iso5, uni], "unicode-1-1");
  }

  /** `iso-8859-5, unicode-1-1;q=0.8`: the charset listed first is acceptable. */
  lemma ImplicitAcceptsFirstOf(iso5: Entry, uni: Entry)
    requires iso5 == Entry("iso-8859-5", [], 1000, 0) && uni == Entry("unicode-1-1", [], 800, 1)
    ensures IsAccepted([iso5, uni], "iso-8859-5")
  {
    var cs := [iso5, uni, Entry(Latin1, [], 1000, 2)];
    assert iso5 in cs && iso5.token == "iso-8859-5" && iso5.quality > 0;
    assert Accepts(cs, "iso-8859-5");
    ImplicitCompleteOf(iso5, uni);
    IsAcceptedLowerCase([iso5, uni], "iso-8859-5");
  }

  /** `iso-8859-5, unicode-1-1;q=0.8`: ISO-8859-1, not listed, is acceptable by the implicit rule. */
  lemma ImplicitAcceptsLatin1Of(iso5: Entry, uni: Entry)
    requires iso5 == Entry("iso-8859-5", [], 1000, 0) && uni == Entry("unicode-1-1", [], 800, 1)
    ensures IsAccepted([iso5, uni], "iso-8859-1")
  {
    var latin := Entry(Latin1, [], 1000, 2);
    var cs := [iso5, uni, latin];
    assert latin in cs && latin.token == "iso-8859-1" && latin.quality > 0;
    assert Accepts(cs, "iso-8859-1");
    ImplicitCompleteOf(iso5, uni);
    IsAcceptedLowerCase([iso5, uni], "iso-8859-1");
  }

  /** `UTF-8,*`: a wildcard leaves ISO-8859-1 out, and ranks after the named charset. */
  lemma WildcardCharsetsOf(utf: Entry, any: Entry)
    requires utf == Entry("utf-8", [], 1000, 0) && any == Entry("*", [], 1000, 1)
    ensures GetCharsets([utf, any]) == ["utf-8", "*"]
  {
    var es := [utf, any];
    assert multiset(es) == multiset([utf, any]);
    assert any in es;
    assert Complete(es) == es;
    assert Level(utf.token) == 2 && Level(any.token) == 0;
    RankIs2(es, utf, any);
    Tokens2(utf, any);
  }

  /** `unicode-1-1;q=0.8`: the implicit ISO-8859-1 at full quality is preferred. */
  lemma ImplicitPreferredOf(uni: Entry)
    requires uni == Entry("unicode-1-1", [], 800, 0)
    ensures PreferredCharset([uni]) == Some("iso-8859-1")
  {
    var latin := Entry(Latin1, [], 1000, 1);
    assert Complete([uni]) == [uni, latin];
    var es := [uni, latin];
    assert multiset(es) == multiset([latin, uni]);
    RankIs2(es, latin, uni);
  }

  /** `*`: any charset is acceptable. */
  lemma WildcardAcceptsOf(any: Entry)
    requires any == Entry("*", [], 1000, 0)
    ensures IsAccepted([any], "utf-8")
  {
    assert any in [any];
    assert Complete([any]) == [any];
    assert !Mentions([any], "utf-8");
    assert Accepts([any], "utf-8");
    IsAcceptedLowerCase([any], "utf-8");
  }

  // ---------------------------------------------------------------------------
  // The same examples read from the header text.

  lemma LoweredPair(a: Entry, b: Entry)
    ensures Lowered([a, b]) == [a.(token := Lower(a.token)), b.(token := Lower(b.token))]
  {
  }

  /** `ISO-8859-1` is read with its names in lower case. */
  lemma Latin1Read()
    ensures Explicit(Some("ISO-8859-1")) == [Entry("iso-8859-1", [], 1000, 0)]
  {
    ExampleHeaders.Latin1Header();
    CharsetNames.Latin1Lower();
  }

  /** `ISO-8859-1; q=0.2` is read with its names in lower case. */
  lemma Latin1LowRead()
    ensures Explicit(Some("ISO-8859-1; q=0.2")) == [Entry("iso-8859-1", [], 200, 0)]
  {
    ExampleHeaders.Latin1LowHeader();
    CharsetNames.Latin1Lower();
  }

  /** `UTF-8` is read with its names in lower case. */
  lemma Utf8Read()
    ensures Explicit(Some("UTF-8")) == [Entry("utf-8", [], 1000, 0)]
  {
    ExampleHeaders.Utf8Header();
    CharsetNames.Utf8Lower();
  }

  /** `iso-8859-5, unicode-1-1;q=0.8` is read with its names in lower case. */
  lemma Iso5UnicodeRead()
    ensures Explicit(Some("iso-8859-5, unicode-1-1;q=0.8")) == [Entry("iso-8859-5", [], 1000, 0), Entry("unicode-1-1", [], 800, 1)]
  {
    ExampleHeaders.Iso5UnicodeHeader();
    CharsetNames.Iso5Lower();
    CharsetNames.UnicodeLower();
    LoweredPair(Entry("iso-8859-5", [], 1000, 0), Entry("unicode-1-1", [], 800, 1));
  }

  /** `UTF-8,*` is read with its names in lower case. */
  lemma Utf8AnyRead()
    ensures Explicit(Some("UTF-8,*")) == [Entry("utf-8", [], 1000, 0), Entry("*", [], 1000, 1)]
  {
    ExampleHeaders.Utf8AnyHeader();
    CharsetNames.Utf8Lower();
    CharsetNames.AnyLower();
    LoweredPair(Entry("UTF-8", [], 1000, 0), Entry("*", [], 1000, 1));
  }

  /** `unicode-1-1;q=0.8` is read with its names in lower case. */
  lemma UnicodeRead()
    ensures Explicit(Some("unicode-1-1;q=0.8")) == [Entry("unicode-1-1", [], 800, 0)]
  {
    ExampleHeaders.UnicodeHeader();
    CharsetNames.UnicodeLower();
  }

  /** `*` is read with its names in lower case. */
  lemma AnyRead()
    ensures Explicit(Some("*")) == [Entry("*", [], 1000, 0)]
  {
    ExampleHeaders.AnyHeader();
    CharsetNames.AnyLower();
  }

  /** `ISO-8859-1` and `ISO-8859-1; q=0.2`: the name is lowercased, and a header listing ISO-8859-1 gets no implicit entry. */
  lemma Latin1Only()
    ensures GetCharsets(Explicit(Some("ISO-8859-1"))) == ["iso-8859-1"]
    ensures GetCharsets(Explicit(Some("ISO-8859-1; q=0.2"))) == ["iso-8859-1"]
  {
    Latin1Read();
    Latin1LowRead();
    Latin1OnlyOf(Entry("iso-8859-1", [], 1000, 0), Entry("iso-8859-1", [], 200, 0));
  }

  /** `UTF-8`: the name is lowercased and ISO-8859-1 is added after it. */
  lemma Utf8Implicit()
    ensures GetCharsets(Explicit(Some("UTF-8"))) == ["utf-8", "iso-8859-1"]
  {
    Utf8Read();
    Utf8ImplicitOf(Entry("utf-8", [], 1000, 0));
  }

  /**
    `iso-8859-5, unicode-1-1;q=0.8`: no wildcard and no ISO-8859-1, so it is added at
    full quality, ahead of `unicode-1-1`; the charset listed first is preferred.
  */
  lemma ImplicitCharsets()
    ensures GetCharsets(Explicit(Some("iso-8859-5, unicode-1-1;q=0.8"))) == ["iso-8859-5", "iso-8859-1", "unicode-1-1"]
    ensures PreferredCharset(Explicit(Some("iso-8859-5, unicode-1-1;q=0.8"))) == Some("iso-8859-5")
  {
    Iso5UnicodeRead();
    ImplicitCharsetsOf(Entry("iso-8859-5", [], 1000, 0), Entry("unicode-1-1", [], 800, 1));
    ImplicitFirstPreferredOf(Entry("iso-8859-5", [], 1000, 0), Entry("unicode-1-1", [], 800, 1));
  }

  /** `iso-8859-5, unicode-1-1;q=0.8`: a listed charset below full quality is acceptable. */
  lemma ImplicitAcceptsListed()
    ensures IsAccepted(Explicit(Some("iso-8859-5, unicode-1-1;q=0.8")), "unicode-1-1")
  {
    Iso5UnicodeRead();
    ImplicitAcceptsListedOf(Entry("iso-8859-5", [], 1000, 0), Entry("unicode-1-1", [], 800, 1));
  }

  /** `iso-8859-5, unicode-1-1;q=0.8`: the charset listed first is acceptable. */
  lemma ImplicitAcceptsFirst()
    ensures IsAccepted(Explicit(Some("iso-8859-5, unicode-1-1;q=0.8")), "iso-8859-5")
  {
    Iso5UnicodeRead();
    ImplicitAcceptsFirstOf(Entry("iso-8859-5", [], 1000, 0), Entry("unicode-1-1", [], 800, 1));
  }

  /** `iso-8859-5, unicode-1-1;q=0.8`: ISO-8859-1, not listed, is acceptable by the implicit rule. */
  lemma ImplicitAcceptsLatin1()
    ensures IsAccepted(Explicit(Some("iso-8859-5, unicode-1-1;q=0.8")), "iso-8859-1")
  {
    Iso5UnicodeRead();
    ImplicitAcceptsLatin1Of(Entry("iso-8859-5", [], 1000, 0), Entry("unicode-1-1", [], 800, 1));
  }

  /** `UTF-8,*`: the name is lowercased, and the wildcard leaves ISO-8859-1 out and ranks after it. */
  lemma WildcardCharsets()
    ensures GetCharsets(Explicit(Some("UTF-8,*"))) == ["utf-8", "*"]
  {
    Utf8AnyRead();
    WildcardCharsetsOf(Entry("utf-8", [], 1000, 0), Entry("*", [], 1000, 1));
  }

  /** `unicode-1-1;q=0.8`: the implicit ISO-8859-1 at full quality is preferred. */
  lemma ImplicitPreferred()
    ensures PreferredCharset(Explicit(Some("unicode-1-1;q=0.8"))) == Some("iso-8859-1")
  {
    UnicodeRead();
    ImplicitPreferredOf(Entry("unicode-1-1", [], 800, 0));
  }

  /** `*`: any charset is acceptable. */
  lemma WildcardAccepts()
    ensures IsAccepted(Explicit(Some("*")), "utf-8")
  {
    AnyRead();
    WildcardAcceptsOf(Entry("*", [], 1000, 0));
  }
}
