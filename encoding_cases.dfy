/**
  The Accept-Encoding header examples worked through, each stated from the header
  text: the acceptance verdicts and the preferred coding. The lemmas whose names end
  in `Of` state the same facts from the entries the header reads as (`ExampleHeaders`
  proves that reading). The unset and the empty header are covered by
  `AcceptEncoding.EmptyHeader`, `AcceptEncoding.UnsetHeader` and `AcceptEncoding.BlankHeader`.
*/
module EncodingCases {
  import opened Wrappers
  import opened Entries
  import opened Ranking
  import opened Preference
  import opened AcceptEncoding
  import opened Cases
  import ExampleHeaders

  /** `gzip`: the listed coding and the implicit `identity` are acceptable. */
  lemma GzipAcceptsOf(gz: Entry)
    requires gz == Entry("gzip", [], 1000, 0)
    ensures IsAccepted([gz], "gzip")
    ensures IsAccepted([gz], Identity)
  {
    var id := Entry(Identity, [], 1000, 1);
    assert !Mentions([gz], Identity) && !Mentions([gz], "*");
    assert Complete([gz]) == [gz, id];
    assert gz in [gz, id] && id in [gz, id];
  }

  /** `compress, gzip`: both listed codings and `identity` are acceptable; an unlisted coding is not. */
  lemma CompressGzipAcceptsOf(cmp: Entry, gz: Entry)
    requires cmp == Entry("compress", [], 1000, 0) && gz == Entry("gzip", [], 1000, 1)
    ensures IsAccepted([cmp, gz], "gzip")
    ensures IsAccepted([cmp, gz], "compress")
    ensures IsAccepted([cmp, gz], Identity)
    ensures !IsAccepted([cmp, gz], "deflate")
  {
    var id := Entry(Identity, [], 1000, 2);
    var cs := [cmp, gz, id];
    assert !Mentions([cmp, gz], Identity) && !Mentions([cmp, gz], "*");
    assert Complete([cmp, gz]) == cs;
    assert cmp in cs && gz in cs && id in cs;
    assert !Mentions(cs, "deflate") && !Welcomes(cs, "*");
  }

  /** `compress;q=0.5, gzip;q=1.0`: the codings listed and `identity` are acceptable, `deflate` is not. */
  lemma WeightedAcceptsOf(cmp: Entry, gz: Entry)
    requires cmp == Entry("compress", [], 500, 0) && gz == Entry("gzip", [], 1000, 1)
    ensures IsAccepted([cmp, gz], "gzip")
    ensures IsAccepted([cmp, gz], "compress")
    ensures IsAccepted([cmp, gz], Identity)
    ensures !IsAccepted([cmp, gz], "deflate")
  {
    var id := Entry(Identity, [], 1000, 2);
    var cs := [cmp, gz, id];
    assert !Mentions([cmp, gz], Identity) && !Mentions([cmp, gz], "*");
    assert Complete([cmp, gz]) == cs;
    assert cmp in cs && gz in cs && id in cs;
    assert !Mentions(cs, "deflate") && !Welcomes(cs, "*");
  }

  /** `compress;q=0.5, gzip;q=1.0`: neither `identity` nor a wildcard is listed, so `identity` is added. */
  lemma WeightedCompleteOf(cmp: Entry, gz: Entry)
    requires cmp == Entry("compress", [], 500, 0) && gz == Entry("gzip", [], 1000, 1)
    ensures Complete([cmp, gz]) == [cmp, gz, Entry(Identity, [], 1000, 2)]
  {
    assert !Mentions([cmp, gz], Identity) && !Mentions([cmp, gz], "*");
  }

  /** `compress;q=0.5, gzip;q=1.0`: `gzip`, then the implicit `identity`, then `compress`. */
  lemma WeightedRankedOf(cmp: Entry, gz: Entry)
    requires cmp == Entry("compress", [], 500, 0) && gz == Entry("gzip", [], 1000, 1)
    ensures Rank(Complete([cmp, gz])) == [gz, Entry(Identity, [], 1000, 2), cmp]
  {
    var id := Entry(Identity, [], 1000, 2);
    var cs := [cmp, gz, id];
    assert multiset(cs) == multiset([gz, id, cmp]);
    WeightedCompleteOf(cmp, gz);
    assert Level(gz.token) == 2 && Level(id.token) == 2;
    AnchorPlain(gz, cs);
    AnchorPlain(id, cs);
    RankIs3(cs, gz, id, cmp);
  }

  /**
    `gzip;q=0, gzip`: an explicit refusal is absolute, so listing `gzip` again above
    quality zero does not make it acceptable, and `identity` is preferred although the
    second `gzip` ranks ahead of it.
  */
  lemma RefusedTwice(no: Entry, yes: Entry)
    requires no == Entry("gzip", [], 0, 0) && yes == Entry("gzip", [], 1000, 1)
    ensures !IsAccepted([no, yes], "gzip")
    ensures PreferredEncoding([no, yes]) == Some(Identity)
  {
    var id := Entry(Identity, [], 1000, 2);
    var cs := [no, yes, id];
    RefusedTwiceCompleteOf(no, yes);
    RefusedTwiceRankedOf(no, yes, id);
    WelcomedFirst(cs, id);
    assert no in cs && !Welcomes(cs, yes.token);
    assert FirstWelcomed([yes, id, no], cs) == Some(id);
  }

  /** `gzip;q=0, gzip`: neither `identity` nor a wildcard is listed, so `identity` is added. */
  lemma RefusedTwiceCompleteOf(no: Entry, yes: Entry)
    requires no == Entry("gzip", [], 0, 0) && yes == Entry("gzip", [], 1000, 1)
    ensures Complete([no, yes]) == [no, yes, Entry(Identity, [], 1000, 2)]
  {
    assert !Mentions([no, yes], Identity) && !Mentions([no, yes], "*");
  }

  /** `gzip;q=0, gzip` completed: `identity` ranks between the two `gzip` entries. */
  lemma RefusedTwiceRankedOf(no: Entry, yes: Entry, id: Entry)
    requires no == Entry("gzip", [], 0, 0) && yes == Entry("gzip", [], 1000, 1) && id == Entry(Identity, [], 1000, 2)
    ensures Rank([no, yes, id]) == [yes, id, no]
  {
    var cs := [no, yes, id];
    assert multiset(cs) == multiset([yes, id, no]);
    assert Level(yes.token) == 2 && Level(id.token) == 2;
    AnchorPlain(yes, cs);
    AnchorPlain(id, cs);
    RankIs3(cs, yes, id, no);
  }

  /** `compress;q=0.5, gzip;q=1.0`: the coding of highest quality is preferred. */
  lemma WeightedPreferredOf(cmp: Entry, gz: Entry)
    requires cmp == Entry("compress", [], 500, 0) && gz == Entry("gzip", [], 1000, 1)
    ensures PreferredEncoding([cmp, gz]) == Some("gzip")
  {
    var id := Entry(Identity, [], 1000, 2);
    WeightedCompleteOf(cmp, gz);
    WeightedRankedOf(cmp, gz);
    WelcomedFirst([cmp, gz, id], gz);
    assert FirstWelcomed([gz, id, cmp], [cmp, gz, id]) == Some(gz);
  }

  /** `gzip;q=1.0, identity; q=0.5, deflate;q=0`: `gzip` is acceptable, `deflate` at quality zero is not. */
  lemma RefusedAcceptsOf(gz: Entry, id: Entry, df: Entry)
    requires gz == Entry("gzip", [], 1000, 0) && id == Entry(Identity, [], 500, 1) && df == Entry("deflate", [], 0, 2)
    ensures IsAccepted([gz, id, df], "gzip")
    ensures !IsAccepted([gz, id, df], "deflate")
  {
    var es := [gz, id, df];
    assert id in es && id.token == Identity;
    assert Complete(es) == es;
    assert gz in es && df in es;
    assert forall e | e in es && e.token == "deflate" :: e == df;
  }

  /** `*`: any coding, `identity` included, is acceptable. */
  lemma WildcardAcceptsOf(any: Entry)
    requires any == Entry("*", [], 1000, 0)
    ensures IsAccepted([any], "gzip")
    ensures IsAccepted([any], Identity)
  {
    var id := Entry(Identity, [], 1000, 1);
    var cs := [any, id];
    assert any in [any] && !Mentions([any], Identity);
    assert Complete([any]) == cs;
    assert any in cs && id in cs;
    assert !Mentions(cs, "gzip");
  }

  /** `*;q=0`: an unlisted coding is refused, and no coding is preferred. */
  lemma RefuseAllOf(none: Entry)
    requires none == Entry("*", [], 0, 0)
    ensures !IsAccepted([none], "deflate")
    ensures PreferredEncoding([none]) == None
  {
    assert none in [none] && !Welcomes([none], "*");
    assert Complete([none]) == [none];
    assert !Mentions([none], "deflate");
    RankIs1([none], none);
  }

  /**
    `gzip;q=1.0, identity; q=0.5, *;q=0`: an unlisted coding is refused, `identity`
    listed above quality zero is acceptable, and `gzip` is preferred.
  */
  lemma ListedIdentityOf(gz: Entry, id: Entry, none: Entry)
    requires gz == Entry("gzip", [], 1000, 0) && id == Entry(Identity, [], 500, 1) && none == Entry("*", [], 0, 2)
    ensures !IsAccepted([gz, id, none], "deflate")
    ensures IsAccepted([gz, id, none], Identity)
  {
    var es := [gz, id, none];
    assert id in es && none in es && gz in es;
    assert Complete(es) == es;
    assert !Mentions(es, "deflate");
    assert forall e | e in es && e.token == "*" :: e == none;
  }

  /** `gzip;q=1.0, identity; q=0.5, *;q=0`: `gzip` is preferred. */
  lemma ListedIdentityPreferredOf(gz: Entry, id: Entry, none: Entry)
    requires gz == Entry("gzip", [], 1000, 0) && id == Entry(Identity, [], 500, 1) && none == Entry("*", [], 0, 2)
    ensures PreferredEncoding([gz, id, none]) == Some("gzip")
  {
    var es := [gz, id, none];
    ListedIdentityRankedOf(gz, id, none);
    WelcomedFirst(es, gz);
    assert FirstWelcomed(es, es) == Some(gz);
  }

  /** `gzip;q=1.0, identity; q=0.5, *;q=0`: nothing is added, and the entries rank as written. */
  lemma ListedIdentityRankedOf(gz: Entry, id: Entry, none: Entry)
    requires gz == Entry("gzip", [], 1000, 0) && id == Entry(Identity, [], 500, 1) && none == Entry("*", [], 0, 2)
    ensures Complete([gz, id, none]) == [gz, id, none]
    ensures Rank([gz, id, none]) == [gz, id, none]
  {
    var es := [gz, id, none];
    assert multiset(es) == multiset([gz, id, none]);
    assert id in es;
    RankIs3(es, gz, id, none);
  }

  /** `gzip;q=1.0, *;q=0`: a refusing wildcard refuses the unlisted `identity` too. */
  lemma IdentityRefusedOf(gz: Entry, none: Entry)
    requires gz == Entry("gzip", [], 1000, 0) && none == Entry("*", [], 0, 1)
    ensures !IsAccepted([gz, none], Identity)
  {
    var es := [gz, none];
    assert none in es && !Mentions(es, Identity);
    assert forall e | e in es && e.token == "*" :: e == none;
    assert Complete(es) == es;
  }

  // ---------------------------------------------------------------------------
  // The same examples read from the header text.

  /** `gzip`: the listed coding and the implicit `identity` are acceptable. */
  lemma GzipAccepts()
    ensures IsAccepted(ParseHeader(Some("gzip")), "gzip")
    ensures IsAccepted(ParseHeader(Some("gzip")), Identity)
  {
    ExampleHeaders.GzipHeader();
    GzipAcceptsOf(Entry("gzip", [], 1000, 0));
  }

  /** `compress, gzip`: both listed codings and `identity` are acceptable; an unlisted coding is not. */
  lemma CompressGzipAccepts()
    ensures IsAccepted(ParseHeader(Some("compress, gzip")), "gzip")
    ensures IsAccepted(ParseHeader(Some("compress, gzip")), "compress")
    ensures IsAccepted(ParseHeader(Some("compress, gzip")), Identity)
    ensures !IsAccepted(ParseHeader(Some("compress, gzip")), "deflate")
  {
    ExampleHeaders.CompressGzipHeader();
    CompressGzipAcceptsOf(Entry("compress", [], 1000, 0), Entry("gzip", [], 1000, 1));
  }

  /** `compress;q=0.5, gzip;q=1.0`: the codings listed and `identity` are acceptable, `deflate` is not. */
  lemma WeightedAccepts()
    ensures IsAccepted(ParseHeader(Some("compress;q=0.5, gzip;q=1.0")), "gzip")
    ensures IsAccepted(ParseHeader(Some("compress;q=0.5, gzip;q=1.0")), "compress")
    ensures IsAccepted(ParseHeader(Some("compress;q=0.5, gzip;q=1.0")), Identity)
    ensures !IsAccepted(ParseHeader(Some("compress;q=0.5, gzip;q=1.0")), "deflate")
  {
    ExampleHeaders.WeightedHeader();
    WeightedAcceptsOf(Entry("compress", [], 500, 0), Entry("gzip", [], 1000, 1));
  }

  /** `compress;q=0.5, gzip;q=1.0`: the coding of highest quality is preferred. */
  lemma WeightedPreferred()
    ensures PreferredEncoding(ParseHeader(Some("compress;q=0.5, gzip;q=1.0"))) == Some("gzip")
  {
    ExampleHeaders.WeightedHeader();
    WeightedPreferredOf(Entry("compress", [], 500, 0), Entry("gzip", [], 1000, 1));
  }

  /** `gzip;q=1.0, identity; q=0.5, deflate;q=0`: `gzip` is acceptable, `deflate` at quality zero is not. */
  lemma RefusedAccepts()
    ensures IsAccepted(ParseHeader(Some("gzip;q=1.0, identity; q=0.5, deflate;q=0")), "gzip")
    ensures !IsAccepted(ParseHeader(Some("gzip;q=1.0, identity; q=0.5, deflate;q=0")), "deflate")
  {
    ExampleHeaders.DeflateHeader();
    RefusedAcceptsOf(Entry("gzip", [], 1000, 0), Entry(Identity, [], 500, 1), Entry("deflate", [], 0, 2));
  }

  /** `*`: any coding, `identity` included, is acceptable. */
  lemma WildcardAccepts()
    ensures IsAccepted(ParseHeader(Some("*")), "gzip")
    ensures IsAccepted(ParseHeader(Some("*")), Identity)
  {
    ExampleHeaders.AnyHeader();
    WildcardAcceptsOf(Entry("*", [], 1000, 0));
  }

  /** `*;q=0`: an unlisted coding is refused, and no coding is preferred. */
  lemma RefuseAll()
    ensures !IsAccepted(ParseHeader(Some("*;q=0")), "deflate")
    ensures PreferredEncoding(ParseHeader(Some("*;q=0"))) == None
  {
    ExampleHeaders.AnyNoneHeader();
    RefuseAllOf(Entry("*", [], 0, 0));
  }

  /** `gzip;q=1.0, identity; q=0.5, *;q=0`: an unlisted coding is refused, and `identity`, listed above quality zero, is acceptable. */
  lemma ListedIdentity()
    ensures !IsAccepted(ParseHeader(Some("gzip;q=1.0, identity; q=0.5, *;q=0")), "deflate")
    ensures IsAccepted(ParseHeader(Some("gzip;q=1.0, identity; q=0.5, *;q=0")), Identity)
  {
    ExampleHeaders.ListedHeader();
    ListedIdentityOf(Entry("gzip", [], 1000, 0), Entry(Identity, [], 500, 1), Entry("*", [], 0, 2));
  }

  /** `gzip;q=1.0, identity; q=0.5, *;q=0`: `gzip` is preferred. */
  lemma ListedIdentityPreferred()
    ensures PreferredEncoding(ParseHeader(Some("gzip;q=1.0, identity; q=0.5, *;q=0"))) == Some("gzip")
  {
    ExampleHeaders.ListedHeader();
    ListedIdentityPreferredOf(Entry("gzip", [], 1000, 0), Entry(Identity, [], 500, 1), Entry("*", [], 0, 2));
  }

  /** `gzip;q=1.0, *;q=0`: a refusing wildcard refuses the unlisted `identity` too. */
  lemma IdentityRefused()
    ensures !IsAccepted(ParseHeader(Some("gzip;q=1.0, *;q=0")), Identity)
  {
    ExampleHeaders.GzipNoneHeader();
    IdentityRefusedOf(Entry("gzip", [], 1000, 0), Entry("*", [], 0, 1));
  }
}
