/**
  What the three negotiators share once a header's entries are ranked: the entries a
  client accepts (quality above zero), the first of them in ranked order, and the
  listing rule of Accept-Charset and Accept-Encoding, under which a name's own entries
  decide for it (one at quality zero refuses it) and the wildcard `*` decides for
  every name not listed.
*/
module Preference {
  import opened Wrappers
  import opened Entries
  import opened Ranking

  /** Some entry is written with the token `name`. */
  predicate Mentions(cs: seq<Entry>, name: string)
  {
    exists e | e in cs :: e.token == name
  }

  /**
    The name is listed and every entry written with it has a quality above zero: a
    single listing at quality zero refuses the name, however else it is listed.
  */
  predicate Welcomes(cs: seq<Entry>, name: string)
  {
    Mentions(cs, name) && forall e | e in cs && e.token == name :: e.quality > 0
  }

  /**
    The listing rule: a listed name is acceptable when none of its entries has quality
    zero; a name not listed is acceptable when the wildcard `*` is. So only an entry of
    the name or a wildcard with a quality above zero can accept it, and an entry of the
    name at quality zero refuses it whatever its other entries or the wildcard say.
  */
  predicate Accepts(cs: seq<Entry>, name: string)
    ensures Accepts(cs, name) ==> exists e | e in cs :: e.quality > 0 && (e.token == name || e.token == "*")
    ensures (exists e | e in cs :: e.token == name && e.quality == 0) ==> !Accepts(cs, name)
    ensures Mentions(cs, name) ==> (Accepts(cs, name) <==> forall e | e in cs && e.token == name :: e.quality > 0)
    ensures !Mentions(cs, name) ==> (Accepts(cs, name) <==> Welcomes(cs, "*"))
  {
    if Mentions(cs, name) then Welcomes(cs, name) else Welcomes(cs, "*")
  }

  /** The tokens of the entries, in the same order. */
  function Tokens(rs: seq<Entry>): (ts: seq<string>)
    ensures |ts| == |rs|
    ensures forall i | 0 <= i < |rs| :: ts[i] == rs[i].token
  {
    if rs == [] then [] else [rs[0].token] + Tokens(rs[1..])
  }

  /** The entries with a quality above zero, in the same relative order. */
  function Acceptable(rs: seq<Entry>): (r: seq<Entry>)
    ensures forall e | e in r :: e in rs && e.quality > 0
    ensures forall e | e in rs && e.quality > 0 :: e in r
  {
    if rs == [] then []
    else if rs[0].quality > 0 then [rs[0]] + Acceptable(rs[1..])
    else Acceptable(rs[1..])
  }

  /** The first entry with a quality above zero, if there is one. */
  function FirstAcceptable(rs: seq<Entry>): (r: Option<Entry>)
    ensures r.None? <==> forall e | e in rs :: e.quality == 0
    ensures r.Some? ==> exists i | 0 <= i < |rs| ::
      (rs[i] == r.value && r.value.quality > 0 && forall k | 0 <= k < i :: rs[k].quality == 0)
  {
    if rs == [] then None
    else if rs[0].quality > 0 then Some(rs[0])
    else
      var r := FirstAcceptable(rs[1..]);
      assert r.Some? ==> exists i | 0 <= i < |rs| ::
        (rs[i] == r.value && r.value.quality > 0 && forall k | 0 <= k < i :: rs[k].quality == 0) by {
        if r.Some? {
          var i :| 0 <= i < |rs[1..]| && rs[1..][i] == r.value && r.value.quality > 0
            && forall k | 0 <= k < i :: rs[1..][k].quality == 0;
          assert rs[i + 1] == r.value;
        }
      }
      r
  }

  /**
    The first entry whose name the header `cs` welcomes, if there is one: an entry above
    quality zero whose name is also listed at quality zero is passed over.
  */
  function FirstWelcomed(rs: seq<Entry>, cs: seq<Entry>): (r: Option<Entry>)
    ensures r.None? <==> forall e | e in rs :: !Welcomes(cs, e.token)
    ensures r.Some? ==> exists i | 0 <= i < |rs| ::
      (rs[i] == r.value && Welcomes(cs, r.value.token) && forall k | 0 <= k < i :: !Welcomes(cs, rs[k].token))
  {
    if rs == [] then None
    else if Welcomes(cs, rs[0].token) then Some(rs[0])
    else
      var r := FirstWelcomed(rs[1..], cs);
      assert r.Some? ==> exists i | 0 <= i < |rs| ::
        (rs[i] == r.value && Welcomes(cs, r.value.token) && forall k | 0 <= k < i :: !Welcomes(cs, rs[k].token)) by {
        if r.Some? {
          var i :| 0 <= i < |rs[1..]| && rs[1..][i] == r.value && Welcomes(cs, r.value.token)
            && forall k | 0 <= k < i :: !Welcomes(cs, rs[1..][k].token);
          assert rs[i + 1] == r.value;
        }
      }
      r
  }

  /** The first acceptable entry is the head of the acceptable entries. */
  lemma {:induction false} FirstIsHead(rs: seq<Entry>)
    ensures FirstAcceptable(rs) == if Acceptable(rs) == [] then None else Some(Acceptable(rs)[0])
  {
    if rs != [] && rs[0].quality == 0 {
      FirstIsHead(rs[1..]);
    }
  }

  /** Keeping only the acceptable entries keeps a ranked sequence ranked. */
  lemma {:induction false} AcceptableSorted(rs: seq<Entry>, ahead: (Entry, Entry) -> bool)
    requires Sorted(rs, ahead)
    ensures Sorted(Acceptable(rs), ahead)
  {
    if rs != [] {
      AcceptableSorted(rs[1..], ahead);
      var r := Acceptable(rs[1..]);
      forall k | 0 <= k < |r| ensures !ahead(r[k], rs[0]) {
        var m :| 0 <= m < |rs[1..]| && rs[1..][m] == r[k];
        assert rs[m + 1] == r[k];
      }
    }
  }

  /**
    The acceptable entries in ranked order are exactly the header's entries with a
    quality above zero, none of them behind one it ranks ahead of.
  */
  lemma RankedAcceptable(cs: seq<Entry>)
    ensures forall e :: e in Acceptable(Rank(cs)) <==> e in cs && e.quality > 0
    ensures Sorted(Acceptable(Rank(cs)), RankOrder(cs))
  {
    assert forall e :: e in Rank(cs) <==> e in cs by {
      forall e ensures e in Rank(cs) <==> e in cs {
        assert e in Rank(cs) <==> e in multiset(Rank(cs));
      }
    }
    AcceptableSorted(Rank(cs), RankOrder(cs));
  }

  /**
    The preferred entry (the first acceptable one in ranked order) is an entry of the
    header with a quality above zero, and no acceptable entry ranks ahead of it; in
    particular none has a higher quality.
  */
  lemma PreferredBest(cs: seq<Entry>)
    ensures FirstAcceptable(Rank(cs)).Some? <==> exists e | e in cs :: e.quality > 0
    ensures FirstAcceptable(Rank(cs)).Some? ==>
      var e := FirstAcceptable(Rank(cs)).value;
      && e in cs && e.quality > 0
      && forall f | f in cs && f.quality > 0 :: !Ahead(f, e, cs) && f.quality <= e.quality
  {
    var rs := Rank(cs);
    forall e ensures e in rs <==> e in cs {
      assert e in rs <==> e in multiset(rs);
    }
    var r := FirstAcceptable(rs);
    if r.Some? {
      var e := r.value;
      var i :| 0 <= i < |rs| && rs[i] == e && e.quality > 0 && forall k | 0 <= k < i :: rs[k].quality == 0;
      forall f | f in cs && f.quality > 0 ensures !Ahead(f, e, cs) && f.quality <= e.quality {
        var j :| 0 <= j < |rs| && rs[j] == f;
        if j != i {
          assert i < j;
          assert !RankOrder(cs)(rs[j], rs[i]);
        }
      }
    }
  }

  /**
    The preferred name of Accept-Charset and Accept-Encoding (the first entry in ranked
    order whose name the header welcomes) exists exactly when the header welcomes one of
    its names. It is an entry of the header above quality zero, its name is acceptable
    under the listing rule, and no entry with a welcomed name ranks ahead of it or has a
    higher quality.
  */
  lemma WelcomedBest(cs: seq<Entry>)
    ensures FirstWelcomed(Rank(cs), cs).Some? <==> exists e | e in cs :: Welcomes(cs, e.token)
    ensures FirstWelcomed(Rank(cs), cs).Some? ==>
      var e := FirstWelcomed(Rank(cs), cs).value;
      && e in cs && e.quality > 0 && Accepts(cs, e.token)
      && forall f | f in cs && Welcomes(cs, f.token) :: !Ahead(f, e, cs) && f.quality <= e.quality
  {
    var rs := Rank(cs);
    forall e ensures e in rs <==> e in cs {
      assert e in rs <==> e in multiset(rs);
    }
    var r := FirstWelcomed(rs, cs);
    if r.Some? {
      var e := r.value;
      var i :| 0 <= i < |rs| && rs[i] == e && Welcomes(cs, e.token) && forall k | 0 <= k < i :: !Welcomes(cs, rs[k].token);
      forall f | f in cs && Welcomes(cs, f.token) ensures !Ahead(f, e, cs) && f.quality <= e.quality {
        var j :| 0 <= j < |rs| && rs[j] == f;
        if j != i {
          assert i < j;
          assert !RankOrder(cs)(rs[j], rs[i]);
        }
      }
    }
  }

  /** The ranked tokens are the header's tokens, each written entry giving one. */
  lemma RankedTokens(cs: seq<Entry>)
    ensures |Tokens(Rank(cs))| == |cs|
    ensures forall t :: t in Tokens(Rank(cs)) <==> Mentions(cs, t)
  {
    var rs := Rank(cs);
    assert |rs| == |multiset(rs)| == |cs|;
    forall t ensures t in Tokens(rs) <==> Mentions(cs, t) {
      if t in Tokens(rs) {
        var i :| 0 <= i < |rs| && Tokens(rs)[i] == t;
        assert rs[i] in multiset(cs);
      }
      if Mentions(cs, t) {
        var e :| e in cs && e.token == t;
        assert e in multiset(rs);
        var i :| 0 <= i < |rs| && rs[i] == e;
        assert Tokens(rs)[i] == t;
      }
    }
  }
}
