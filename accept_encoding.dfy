/**
  The Accept-Encoding negotiator (section 14.3 of RFC 2616). A coding the header lists
  is decided by its own entries, any other by the wildcard `*`; without a wildcard only
  `identity` is acceptable unlisted. `identity` is acceptable unless the header refuses
  it, by listing it at quality zero or by a refusing wildcard while it is not listed;
  the negotiator adds it at full quality after the written entries when it is neither
  listed nor refused by the wildcard, so that it can be preferred.
*/
module AcceptEncoding {
  import opened Wrappers
  import QValue
  import opened Entries
  import opened Ranking
  import opened Preference

  const Identity: string := "identity"

  /** The header leaves `identity` to the implicit rule: it is not listed and no wildcard refuses it. */
  predicate Implicit(es: seq<Entry>)
  {
    !Mentions(es, Identity) && (Mentions(es, "*") ==> Welcomes(es, "*"))
  }

  /** The entry the implicit rule adds: `identity` at full quality, after the written entries. */
  function ImplicitEntry(es: seq<Entry>): Entry
  {
    Entry(Identity, [], QValue.Full, |es|)
  }

  /**
    The written entries and, under the implicit rule, `identity` after them: afterwards
    `identity` is listed, or a wildcard refuses it.
  */
  function Complete(es: seq<Entry>): (cs: seq<Entry>)
    ensures |es| <= |cs| <= |es| + 1 && cs[..|es|] == es
    ensures Mentions(cs, Identity) || (Mentions(cs, "*") && !Welcomes(cs, "*"))
  {
    if Implicit(es) then
      assert ImplicitEntry(es) in es + [ImplicitEntry(es)];
      es + [ImplicitEntry(es)]
    else es
  }

  /**
    Whether the content-coding `coding` is acceptable: a listed coding is decided by its
    own entries, an unlisted one by the wildcard, and without a wildcard only `identity`
    is acceptable unlisted.
  */
  predicate IsAccepted(es: seq<Entry>, coding: string)
    ensures IsAccepted(es, coding) <==>
      if Mentions(es, coding) then Welcomes(es, coding)
      else if Mentions(es, "*") then Welcomes(es, "*")
      else coding == Identity
  {
    CompleteHolds(es);
    Accepts(Complete(es), coding)
  }

  /**
    The acceptable coding with the highest rank, if any: it is acceptable and no
    acceptable coding ranks ahead of it; there is none exactly when every coding
    negotiated over is refused.
  */
  function PreferredEncoding(es: seq<Entry>): (r: Option<string>)
    ensures r.None? <==> forall e | e in Complete(es) :: !Welcomes(Complete(es), e.token)
    ensures r.Some? ==> IsAccepted(es, r.value)
    ensures r.Some? ==> exists e | e in Complete(es) ::
      && e.token == r.value && e.quality > 0
      && forall f | f in Complete(es) && Welcomes(Complete(es), f.token) ::
           !Ahead(f, e, Complete(es)) && f.quality <= e.quality
  {
    WelcomedBest(Complete(es));
    match FirstWelcomed(Rank(Complete(es)), Complete(es))
    case None => None
    case Some(e) => Some(e.token)
  }

  // ---------------------------------------------------------------------------
  // What the negotiator promises.

  /** What completing adds: the implicit entry and nothing else. */
  lemma CompleteHolds(es: seq<Entry>)
    ensures forall e :: e in Complete(es) <==> e in es || (Implicit(es) && e == ImplicitEntry(es))
    ensures forall t :: Mentions(Complete(es), t) <==> Mentions(es, t) || (t == Identity && Implicit(es))
    ensures forall t :: Welcomes(Complete(es), t) <==> Welcomes(es, t) || (t == Identity && Implicit(es))
  {
    var cs := Complete(es);
    assert forall e :: e in cs <==> e in es || (Implicit(es) && e == ImplicitEntry(es));
  }

  /**
    `identity` is acceptable unless the header refuses it: an entry listing it has
    quality zero, or it is not listed and a wildcard has quality zero.
  */
  lemma IdentityRule(es: seq<Entry>)
    ensures IsAccepted(es, Identity) <==>
      && !(Mentions(es, Identity) && !Welcomes(es, Identity))
      && !(!Mentions(es, Identity) && Mentions(es, "*") && !Welcomes(es, "*"))
  {
  }

  /** A header without entries accepts `identity` and nothing else, and prefers it. */
  lemma EmptyHeader(coding: string)
    ensures IsAccepted([], coding) <==> coding == Identity
    ensures PreferredEncoding([]) == Some(Identity)
  {
    assert Complete([]) == [ImplicitEntry([])];
  }

  /** An unset header accepts `identity` and nothing else, and prefers it. */
  lemma UnsetHeader(coding: string)
    ensures IsAccepted(ParseHeader(None), coding) <==> coding == Identity
    ensures PreferredEncoding(ParseHeader(None)) == Some(Identity)
  {
    EmptyHeader(coding);
  }

  /** An empty header value accepts `identity` and nothing else, and prefers it. */
  lemma BlankHeader(coding: string)
    ensures IsAccepted(ParseHeader(Some("")), coding) <==> coding == Identity
    ensures PreferredEncoding(ParseHeader(Some(""))) == Some(Identity)
  {
    BlankElements();
    EmptyHeader(coding);
  }

  /** Explicit refusal is absolute: a coding listed at quality zero is refused, however else it is listed. */
  lemma RefusalAbsolute(es: seq<Entry>)
    ensures forall e | e in es && e.quality == 0 :: !IsAccepted(es, e.token)
  {
    forall e | e in es && e.quality == 0 ensures !IsAccepted(es, e.token) {
      assert Mentions(es, e.token);
    }
  }

  /** There is no preferred coding exactly when every coding is refused, `identity` included. */
  lemma NoPreferredEncoding(es: seq<Entry>)
    ensures PreferredEncoding(es).None? <==>
      (forall e | e in es :: !IsAccepted(es, e.token)) && !IsAccepted(es, Identity)
  {
    CompleteHolds(es);
    forall e | e in es ensures IsAccepted(es, e.token) <==> Welcomes(Complete(es), e.token) {
      assert Mentions(es, e.token);
    }
    if (forall e | e in es :: !IsAccepted(es, e.token)) && !IsAccepted(es, Identity) {
      assert !Implicit(es);
    }
  }
}
