/**
  The Accept-Charset negotiator (section 14.2 of RFC 2616). Charset names compare
  without case, so every name is lowercased when the header is read. When the header
  has no wildcard `*` and does not list ISO-8859-1, that charset is acceptable at full
  quality anyway: the negotiator adds it as one more entry after those written.
*/
module AcceptCharset {
  import opened Wrappers
  import opened Text
  import QValue
  import opened Entries
  import opened Ranking
  import opened Preference

  const Latin1: string := "iso-8859-1"

  /** Every name the negotiator works with is lower case. */
  predicate LowerCase(s: string)
  {
    Lower(s) == s
  }

  /** The entries with their names lowercased. */
  function Lowered(es: seq<Entry>): (r: seq<Entry>)
    ensures |r| == |es|
    ensures forall i | 0 <= i < |es| :: r[i] == es[i].(token := Lower(es[i].token))
    ensures forall e | e in r :: LowerCase(e.token)
  {
    var r := seq(|es|, i requires 0 <= i < |es| => es[i].(token := Lower(es[i].token)));
    assert forall i | 0 <= i < |es| :: LowerCase(r[i].token) by {
      forall i | 0 <= i < |es| ensures LowerCase(r[i].token) {
        LowerIdempotent(es[i].token);
      }
    }
    r
  }

  /** The entries of an Accept-Charset header value, names lowercased, in the order written. */
  function Explicit(raw: Option<string>): (es: seq<Entry>)
    ensures Valid(es)
  {
    Lowered(ParseHeader(raw))
  }

  /** The header leaves ISO-8859-1 to the implicit rule: it neither lists it nor has a wildcard. */
  predicate Implicit(es: seq<Entry>)
  {
    !Mentions(es, "*") && !Mentions(es, Latin1)
  }

  /** The entry the implicit rule adds: ISO-8859-1 at full quality, after the written entries. */
  function ImplicitEntry(es: seq<Entry>): Entry
  {
    Entry(Latin1, [], QValue.Full, |es|)
  }

  /** The written entries and, under the implicit rule, ISO-8859-1. */
  function Complete(es: seq<Entry>): (cs: seq<Entry>)
    ensures Mentions(cs, Latin1) || Mentions(cs, "*")
  {
    if Implicit(es) then
      assert ImplicitEntry(es) in es + [ImplicitEntry(es)];
      es + [ImplicitEntry(es)]
    else es
  }

  /**
    The charset names in ranked order, refused ones included: the header's names, one
    per entry, plus ISO-8859-1 exactly when the header neither lists it nor has a
    wildcard.
  */
  function GetCharsets(es: seq<Entry>): (r: seq<string>)
    ensures |r| == |es| + (if Implicit(es) then 1 else 0)
    ensures forall t :: t in r <==> Mentions(es, t) || (t == Latin1 && Implicit(es))
  {
    CompleteHolds(es);
    RankedTokens(Complete(es));
    Tokens(Rank(Complete(es)))
  }

  /**
    The first charset in ranked order that the header welcomes (above quality zero and
    not refused by another listing): there is none exactly when every charset negotiated
    over is refused, and no welcomed charset ranks ahead of it or has a higher quality.
  */
  function PreferredCharset(es: seq<Entry>): (r: Option<string>)
    ensures r.None? <==> forall e | e in Complete(es) :: !Welcomes(Complete(es), e.token)
    ensures r.Some? ==> exists e | e in Complete(es) ::
      && e.token == r.value && e.quality > 0
      && forall f | f in Complete(es) && Welcomes(Complete(es), f.token) ::
           !Ahead(f, e, Complete(es)) && f.quality <= e.quality
  {
    WelcomedBest(Complete(es));
    match FirstWelcomed(Rank(Complete(es)), Complete(es))
    case None => None
    case Some(e) => Some(e.token)
  }

  /**
    Whether the charset `name` (any case) is acceptable: a listed charset is decided by
    its own entries, an unlisted one by the wildcard, and without a wildcard only
    ISO-8859-1 is acceptable unlisted.
  */
  predicate IsAccepted(es: seq<Entry>, name: string)
    ensures IsAccepted(es, name) <==>
      var n := Lower(name);
      if Mentions(es, n) then Welcomes(es, n)
      else if Mentions(es, "*") then Welcomes(es, "*")
      else n == Latin1
  {
    CompleteHolds(es);
    assert Implicit(es) ==> Welcomes(Complete(es), Latin1);
    Accepts(Complete(es), Lower(name))
  }

  /** The state the negotiator keeps: entries numbered in written order, names in lower case. */
  predicate Valid(es: seq<Entry>)
  {
    Numbered(es) && forall e | e in es :: LowerCase(e.token)
  }

  // ---------------------------------------------------------------------------
  // What the negotiator promises.

  /** The implicit charset is written in lower case. */
  lemma Latin1LowerCase()
    ensures LowerCase(Latin1)
  {
    var s := Latin1;
    assert forall i | 0 <= i < |s| :: LowerChar(s[i]) == s[i];
  }

  /** The implicit charset is named exactly: it is not a wildcard. */
  lemma Latin1Level()
    ensures Level(Latin1) == 2
  {
  }

  /** A name without upper-case letters is judged as written, by the listing rule over the completed entries. */
  lemma IsAcceptedLowerCase(es: seq<Entry>, name: string)
    requires forall i | 0 <= i < |name| :: !('A' <= name[i] <= 'Z')
    ensures IsAccepted(es, name) <==> Accepts(Complete(es), name)
  {
    LowerKeeps(name);
  }

  /** What completing adds: the implicit entry and nothing else, numbered after the rest. */
  lemma CompleteHolds(es: seq<Entry>)
    ensures forall e :: e in Complete(es) <==> e in es || (Implicit(es) && e == ImplicitEntry(es))
    ensures forall t :: Mentions(Complete(es), t) <==> Mentions(es, t) || (t == Latin1 && Implicit(es))
    ensures forall t :: Welcomes(Complete(es), t) <==> Welcomes(es, t) || (t == Latin1 && Implicit(es))
    ensures Numbered(es) ==> Numbered(Complete(es))
  {
    var cs := Complete(es);
    assert forall e :: e in cs <==> e in es || (Implicit(es) && e == ImplicitEntry(es));
  }

  /**
    The listed names are the header's names, plus ISO-8859-1 exactly when the header
    neither lists it nor has a wildcard; each written entry gives one name, and every
    name is in lower case.
  */
  lemma GetCharsetsLists(es: seq<Entry>)
    requires Valid(es)
    ensures forall t | t in GetCharsets(es) :: LowerCase(t)
  {
    CompleteHolds(es);
    RankedTokens(Complete(es));
    Latin1LowerCase();
  }

  /** A written full-quality charset named exactly ranks ahead of the implicit ISO-8859-1. */
  lemma AheadOfImplicit(es: seq<Entry>, e: Entry)
    requires Numbered(es) && Implicit(es)
    requires e in es && e.quality == QValue.Full && Level(e.token) == 2
    ensures Ahead(e, ImplicitEntry(es), Complete(es))
  {
    var cs := Complete(es);
    var l := ImplicitEntry(es);
    CompleteHolds(es);
    Latin1Level();
    AnchorOf(l, cs);
    AnchorOf(e, cs);
    var k :| 0 <= k < |es| && es[k] == e;
  }

  /**
    The implicit ISO-8859-1 ranks among the full-quality charsets after every written
    one named exactly.
  */
  lemma ImplicitRanksLast(es: seq<Entry>)
    requires Numbered(es) && Implicit(es)
    ensures var rs := Rank(Complete(es));
      forall i, j | 0 <= i < |rs| && 0 <= j < |rs| && rs[j] == ImplicitEntry(es)
        && rs[i] in es && rs[i].quality == QValue.Full && Level(rs[i].token) == 2 :: i < j
  {
    var rs := Rank(Complete(es));
    forall i, j | 0 <= i < |rs| && 0 <= j < |rs| && rs[j] == ImplicitEntry(es)
      && rs[i] in es && rs[i].quality == QValue.Full && Level(rs[i].token) == 2
      ensures i < j
    {
      AheadOfImplicit(es, rs[i]);
      assert i != j by {
        assert rs[i].order < |es|;
      }
    }
  }

  /**
    The preferred charset is acceptable and no acceptable charset ranks ahead of it;
    there is none exactly when every charset negotiated over is refused.
  */
  lemma PreferredCharsetBest(es: seq<Entry>)
    requires Valid(es)
    ensures PreferredCharset(es).Some? ==> IsAccepted(es, PreferredCharset(es).value)
  {
    var cs := Complete(es);
    CompleteHolds(es);
    WelcomedBest(cs);
    var r := FirstWelcomed(Rank(cs), cs);
    if r.Some? {
      Latin1LowerCase();
      assert LowerCase(r.value.token);
    }
  }

  /** Explicit refusal is absolute: a charset listed at quality zero is refused, however else it is listed. */
  lemma RefusalAbsolute(es: seq<Entry>)
    requires Valid(es)
    ensures forall e | e in es && e.quality == 0 :: !IsAccepted(es, e.token)
  {
    forall e | e in es && e.quality == 0 ensures !IsAccepted(es, e.token) {
      assert Lower(e.token) == e.token;
      assert Mentions(es, e.token);
    }
  }

  /** Without a wildcard, some charset is always preferred unless ISO-8859-1 itself is refused. */
  lemma PreferredCharsetExists(es: seq<Entry>)
    requires !Mentions(es, "*")
    requires Mentions(es, Latin1) ==> Welcomes(es, Latin1)
    ensures PreferredCharset(es).Some?
  {
    CompleteHolds(es);
    assert Welcomes(Complete(es), Latin1);
    assert ImplicitEntry(es) in Complete(es) || exists e | e in es :: e.token == Latin1;
    WelcomedBest(Complete(es));
  }
}
