/**
  Shared steps for the worked header examples: a ranking fixed by its neighbours, the
  acceptable entries of a header that refuses none, and formatted lists written out.
*/
module Cases {
  import opened Entries
  import opened Ranking
  import opened Preference
  import opened Accept

  /** With every entry above quality zero, the acceptable entries are all of them. */
  lemma {:induction false} AcceptableAll(rs: seq<Entry>)
    requires forall e | e in rs :: e.quality > 0
    ensures Acceptable(rs) == rs
  {
    if rs != [] {
      assert rs[0] in rs;
      assert forall e | e in rs[1..] :: e in rs;
      AcceptableAll(rs[1..]);
    }
  }

  /** The iterated types of a header that refuses none of its ranked entries. */
  lemma TypesOf(es: seq<Entry>, rs: seq<Entry>)
    requires Rank(es) == rs
    requires forall e | e in rs :: e.quality > 0
    ensures Types(es) == FormatAll(rs)
  {
    AcceptableAll(rs);
  }

  /** An entry above quality zero whose name no other entry shares is welcomed. */
  lemma WelcomedFirst(cs: seq<Entry>, e: Entry)
    requires e in cs && e.quality > 0
    requires forall f | f in cs && f != e :: f.token != e.token
    ensures Welcomes(cs, e.token)
  {
  }

  lemma RankIs1(es: seq<Entry>, a: Entry)
    requires es == [a]
    ensures Rank(es) == [a]
  {
    RankIs(es, [a]);
  }

  lemma RankIs2(es: seq<Entry>, a: Entry, b: Entry)
    requires multiset(es) == multiset([a, b])
    requires Ahead(a, b, es)
    ensures Rank(es) == [a, b]
  {
    RankIs(es, [a, b]);
  }

  lemma RankIs3(es: seq<Entry>, a: Entry, b: Entry, c: Entry)
    requires multiset(es) == multiset([a, b, c])
    requires Ahead(a, b, es) && Ahead(b, c, es)
    ensures Rank(es) == [a, b, c]
  {
    RankIs(es, [a, b, c]);
  }

  lemma RankIs4(es: seq<Entry>, a: Entry, b: Entry, c: Entry, d: Entry)
    requires multiset(es) == multiset([a, b, c, d])
    requires Ahead(a, b, es) && Ahead(b, c, es) && Ahead(c, d, es)
    ensures Rank(es) == [a, b, c, d]
  {
    var s := [a, b, c, d];
    forall k | 0 <= k < |s| - 1 ensures Ahead(s[k], s[k + 1], es) {
      assert k == 0 || k == 1 || k == 2;
    }
    RankIs(es, s);
  }

  lemma RankIs5(es: seq<Entry>, a: Entry, b: Entry, c: Entry, d: Entry, e: Entry)
    requires multiset(es) == multiset([a, b, c, d, e])
    requires Ahead(a, b, es) && Ahead(b, c, es) && Ahead(c, d, es) && Ahead(d, e, es)
    ensures Rank(es) == [a, b, c, d, e]
  {
    var s := [a, b, c, d, e];
    forall k | 0 <= k < |s| - 1 ensures Ahead(s[k], s[k + 1], es) {
      assert k == 0 || k == 1 || k == 2 || k == 3;
    }
    RankIs(es, s);
  }

  /** The texts of listed entries, written out. */
  lemma FormatAll1(a: Entry, ta: string)
    requires Format(a) == ta
    ensures FormatAll([a]) == [ta]
  {
  }

  lemma FormatAll2(a: Entry, b: Entry, ta: string, tb: string)
    requires Format(a) == ta && Format(b) == tb
    ensures FormatAll([a, b]) == [ta, tb]
  {
    var ts := FormatAll([a, b]);
    assert ts == [ts[0], ts[1]];
  }

  lemma FormatAll3(a: Entry, b: Entry, c: Entry, ta: string, tb: string, tc: string)
    requires Format(a) == ta && Format(b) == tb && Format(c) == tc
    ensures FormatAll([a, b, c]) == [ta, tb, tc]
  {
    var ts := FormatAll([a, b, c]);
    assert ts == [ts[0], ts[1], ts[2]];
  }

  lemma FormatAll4(a: Entry, b: Entry, c: Entry, d: Entry, ta: string, tb: string, tc: string, td: string)
    requires Format(a) == ta && Format(b) == tb && Format(c) == tc && Format(d) == td
    ensures FormatAll([a, b, c, d]) == [ta, tb, tc, td]
  {
    var ts := FormatAll([a, b, c, d]);
    assert ts == [ts[0], ts[1], ts[2], ts[3]];
  }

  lemma FormatAll5(a: Entry, b: Entry, c: Entry, d: Entry, e: Entry, ta: string, tb: string, tc: string, td: string, te: string)
    requires Format(a) == ta && Format(b) == tb && Format(c) == tc && Format(d) == td && Format(e) == te
    ensures FormatAll([a, b, c, d, e]) == [ta, tb, tc, td, te]
  {
    var ts := FormatAll([a, b, c, d, e]);
    assert ts == [ts[0], ts[1], ts[2], ts[3], ts[4]];
  }

  lemma Tokens2(a: Entry, b: Entry)
    ensures Tokens([a, b]) == [a.token, b.token]
  {
    var ts := Tokens([a, b]);
    assert ts == [ts[0], ts[1]];
  }

  lemma Tokens3(a: Entry, b: Entry, c: Entry)
    ensures Tokens([a, b, c]) == [a.token, b.token, c.token]
  {
    var ts := Tokens([a, b, c]);
    assert ts == [ts[0], ts[1], ts[2]];
  }

  lemma Judge2(a: Entry, b: Entry, c: Entry)
    ensures Judge([a, b], c) == Weigh(a, c, Weigh(b, c, NoMatch))
  {
    assert [a, b][1..] == [b];
    assert [b][1..] == [];
  }

  lemma JudgeFirst(es: seq<Entry>, x: Entry)
    requires es != []
    ensures Judge(es, x) == Weigh(es[0], x, Judge(es[1..], x))
  {
  }

  lemma Judge5(a: Entry, b: Entry, c: Entry, d: Entry, e: Entry, x: Entry)
    ensures Judge([a, b, c, d, e], x) == Weigh(a, x, Weigh(b, x, Weigh(c, x, Weigh(d, x, Weigh(e, x, NoMatch)))))
  {
    JudgeFirst([a, b, c, d, e], x);
    assert [a, b, c, d, e][1..] == [b, c, d, e];
    JudgeFirst([b, c, d, e], x);
    assert [b, c, d, e][1..] == [c, d, e];
    JudgeFirst([c, d, e], x);
    assert [c, d, e][1..] == [d, e];
    Judge2(d, e, x);
  }
}
