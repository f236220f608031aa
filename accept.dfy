/**
  The Accept negotiator (section 14.1 of RFC 2616): the media ranges of an Accept
  header in ranked order, the preferred one, and whether a media type is acceptable.
  A media type is judged by the most specific ranges that match it; a type no range
  matches is refused, since Accept has no implicit default.
*/
module Accept {
  import opened Wrappers
  import opened Text
  import QValue
  import opened Entries
  import opened Ranking
  import opened Preference

  // The media range `range` covers the media type `t`: the full wildcard covers every
  // type, `type/*` every subtype of its type, any other range only itself.
  predicate Covers(range: string, t: string)
  {
    var l := Level(range);
    if l == 0 then true
    else if l == 1 then MediaType(range) == MediaType(t)
    else range == t
  }

  /** Every parameter of `ps` is one of `qs`. */
  predicate AllIn(ps: seq<Param>, qs: seq<Param>)
  {
    ps == [] || (ps[0] in qs && AllIn(ps[1..], qs))
  }

  lemma {:induction false} AllInMeans(ps: seq<Param>, qs: seq<Param>)
    ensures AllIn(ps, qs) <==> forall p | p in ps :: p in qs
  {
    if ps != [] {
      AllInMeans(ps[1..], qs);
      assert forall p | p in ps :: p == ps[0] || p in ps[1..];
    }
  }

  /** The range entry `e` applies to the candidate `c`: it covers its type and `c` has all of `e`'s parameters. */
  predicate Matches(e: Entry, c: Entry)
  {
    Covers(e.token, c.token) && AllIn(e.params, c.params)
  }

  /** `e` names candidates more narrowly than `f`: a narrower range, or as narrow with more parameters. */
  predicate Narrower(e: Entry, f: Entry)
  {
    Level(e.token) > Level(f.token)
    || (Level(e.token) == Level(f.token) && |e.params| > |f.params|)
  }

  /**
    The judgement of a candidate by a list of ranges: no range matches it, or the
    specificity (range level, parameter count) of the most specific matching ranges
    and whether all of those have a quality above zero.
  */
  datatype Verdict = NoMatch | Match(level: nat, params: nat, accepted: bool)

  /**
    `v` is the judgement of the candidate `c` by the ranges `es`: it says there is no
    match exactly when no range matches; otherwise some matching range has the
    specificity it records, none is more specific, and it accepts exactly when every
    one of the most specific matching ranges has a quality above zero.
  */
  ghost predicate Describes(v: Verdict, es: seq<Entry>, c: Entry)
  {
    && (v.NoMatch? <==> forall e | e in es :: !Matches(e, c))
    && (v.Match? ==> exists e | e in es :: Matches(e, c) && Level(e.token) == v.level && |e.params| == v.params)
    && (v.Match? ==> forall e | e in es && Matches(e, c) ::
         Level(e.token) < v.level || (Level(e.token) == v.level && |e.params| <= v.params))
    && (v.Match? ==> (v.accepted <==> forall e | e in es &&
         Matches(e, c) && Level(e.token) == v.level && |e.params| == v.params :: e.quality > 0))
  }

  /** Combines one range with the judgement of the ranges after it. */
  function Weigh(e: Entry, c: Entry, v: Verdict): Verdict
  {
    if !Matches(e, c) then v
    else if v.NoMatch? || Level(e.token) > v.level || (Level(e.token) == v.level && |e.params| > v.params)
    then Match(Level(e.token), |e.params|, e.quality > 0)
    else if Level(e.token) == v.level && |e.params| == v.params then v.(accepted := v.accepted && e.quality > 0)
    else v
  }

  lemma WeighDescribes(e: Entry, c: Entry, v: Verdict, rest: seq<Entry>)
    requires Describes(v, rest, c)
    ensures Describes(Weigh(e, c, v), [e] + rest, c)
  {
    var es := [e] + rest;
    assert forall f | f in es :: f == e || f in rest;
    assert e in es && forall f | f in rest :: f in es;
  }

  /** Judges the candidate `c` by the ranges `es`. */
  function Judge(es: seq<Entry>, c: Entry): (v: Verdict)
    ensures Describes(v, es, c)
  {
    if es == [] then NoMatch
    else
      WeighDescribes(es[0], c, Judge(es[1..], c), es[1..]);
      assert [es[0]] + es[1..] == es;
      Weigh(es[0], c, Judge(es[1..], c))
  }

  /**
    The ranked, formatted media ranges a client accepts (the header iterated): each
    range with a quality above zero, written without its `q` parameter.
  */
  function Types(es: seq<Entry>): (ts: seq<string>)
    ensures |ts| == |Acceptable(Rank(es))|
    ensures forall i | 0 <= i < |ts| :: ts[i] == Format(Acceptable(Rank(es))[i])
  {
    FormatAll(Acceptable(Rank(es)))
  }

  function FormatAll(rs: seq<Entry>): (ts: seq<string>)
    ensures |ts| == |rs|
    ensures forall i | 0 <= i < |rs| :: ts[i] == Format(rs[i])
  {
    if rs == [] then [] else [Format(rs[0])] + FormatAll(rs[1..])
  }

  /**
    The preferred media range: the first type iterated, and none when no range is
    acceptable.
  */
  function PreferredType(es: seq<Entry>): (r: Option<string>)
    ensures r == if Types(es) == [] then None else Some(Types(es)[0])
  {
    FirstIsHead(Rank(es));
    match FirstAcceptable(Rank(es))
    case None => None
    case Some(e) => Some(Format(e))
  }

  /**
    A media type to judge, read like an element of the header (parameters allowed):
    one written without parameters or quotes is its trimmed self at full quality.
  */
  function Candidate(candidate: string): (c: Entry)
    ensures c.order == 0 && Trimmed(c.token) && forall p | p in c.params :: !IsQ(p)
    ensures ';' !in candidate && '"' !in candidate ==> c == Entry(Trim(candidate), [], QValue.Full, 0)
  {
    if ';' !in candidate && '"' !in candidate then
      PlainEntry(candidate, 0);
      ParseEntry(candidate, 0)
    else ParseEntry(candidate, 0)
  }

  /**
    `e` is one of the most specific ranges matching the candidate `c`: it matches, and
    no matching range is narrower.
  */
  predicate Foremost(es: seq<Entry>, c: Entry, e: Entry)
  {
    Matches(e, c) && forall f | f in es && Matches(f, c) :: !Narrower(f, e)
  }

  /**
    Whether the media type `candidate` is acceptable: exactly when one of the most
    specific ranges matching it has a quality above zero and none of them has quality
    zero (a refusal is absolute among equally specific ranges); a type that no range
    matches is refused.
  */
  predicate IsAccepted(es: seq<Entry>, candidate: string)
    ensures IsAccepted(es, candidate) <==>
      && (exists e | e in es :: Foremost(es, Candidate(candidate), e) && e.quality > 0)
      && (forall e | e in es && Foremost(es, Candidate(candidate), e) :: e.quality > 0)
    ensures (forall e | e in es :: !Matches(e, Candidate(candidate))) ==> !IsAccepted(es, candidate)
  {
    JudgeAccepts(es, Candidate(candidate));
    var v := Judge(es, Candidate(candidate));
    v.Match? && v.accepted
  }

  // ---------------------------------------------------------------------------
  // What the negotiator promises.

  /**
    The iterated types are the formatted acceptable ranges, and they come in ranked
    order: no range is listed behind one it ranks ahead of.
  */
  lemma TypesRanked(es: seq<Entry>)
    ensures forall t :: t in Types(es) <==> exists e | e in es && e.quality > 0 :: Format(e) == t
    ensures forall i, j | 0 <= i < j < |Types(es)| ::
      !Ahead(Acceptable(Rank(es))[j], Acceptable(Rank(es))[i], es)
  {
    RankedAcceptable(es);
    FormatAllHolds(Acceptable(Rank(es)));
  }

  lemma {:induction false} FormatAllHolds(rs: seq<Entry>)
    ensures forall t :: t in FormatAll(rs) <==> exists e | e in rs :: Format(e) == t
  {
    if rs != [] {
      FormatAllHolds(rs[1..]);
      assert FormatAll(rs) == [Format(rs[0])] + FormatAll(rs[1..]);
      assert forall e | e in rs :: e == rs[0] || e in rs[1..];
      assert forall e | e in rs[1..] :: e in rs;
    }
  }

  /** The preferred type formats an acceptable range that no acceptable range ranks ahead of. */
  lemma PreferredTypeBest(es: seq<Entry>)
    ensures PreferredType(es).Some? <==> exists e | e in es :: e.quality > 0
    ensures PreferredType(es).Some? ==> exists e | e in es ::
      && Format(e) == PreferredType(es).value && e.quality > 0
      && forall f | f in es && f.quality > 0 :: !Ahead(f, e, es) && f.quality <= e.quality
  {
    PreferredBest(es);
  }

  /**
    A candidate is accepted by a judgement exactly when one of the most specific ranges
    matching it has a quality above zero and none of them has quality zero; a candidate
    no range matches is refused.
  */
  lemma JudgeAccepts(es: seq<Entry>, c: Entry)
    ensures (Judge(es, c).Match? && Judge(es, c).accepted) <==>
      && (exists e | e in es :: Foremost(es, c, e) && e.quality > 0)
      && (forall e | e in es && Foremost(es, c, e) :: e.quality > 0)
    ensures (forall e | e in es :: !Matches(e, c)) ==> !(Judge(es, c).Match? && Judge(es, c).accepted)
  {
    var v := Judge(es, c);
    if v.Match? {
      var w := ForemostAtVerdict(es, c);
      assert Foremost(es, c, w);
    }
  }

  /** The most specific matching ranges are those of the specificity a match records, and there is one. */
  lemma ForemostAtVerdict(es: seq<Entry>, c: Entry) returns (w: Entry)
    requires Judge(es, c).Match?
    ensures w in es && Matches(w, c) && Level(w.token) == Judge(es, c).level && |w.params| == Judge(es, c).params
    ensures forall e | e in es :: Foremost(es, c, e) <==>
      Matches(e, c) && Level(e.token) == Judge(es, c).level && |e.params| == Judge(es, c).params
  {
    var v := Judge(es, c);
    w :| w in es && Matches(w, c) && Level(w.token) == v.level && |w.params| == v.params;
    forall e | e in es
      ensures Foremost(es, c, e) <==> Matches(e, c) && Level(e.token) == v.level && |e.params| == v.params
    {
      if Foremost(es, c, e) {
        assert !Narrower(w, e);
      }
    }
  }

  /**
    An exact range without parameters refused at quality zero refuses that media type,
    however else it is listed and whatever the wildcards say.
  */
  lemma RefusedExactly(es: seq<Entry>, c: Entry)
    requires c.params == [] && Level(c.token) == 2
    requires exists e | e in es :: e.token == c.token && e.params == [] && e.quality == 0
    ensures !(Judge(es, c).Match? && Judge(es, c).accepted)
  {
    var x :| x in es && x.token == c.token && x.params == [] && x.quality == 0;
    forall f | f in es && Matches(f, c) ensures !Narrower(f, x) {
      if Level(f.token) == 2 {
        assert f.params == [];
      }
    }
    assert Foremost(es, c, x);
    JudgeAccepts(es, c);
  }
}
