/**
  The ranker: entries are ordered by quality (highest first), then by how narrowly
  their token names candidates (`type/subtype` before `type/*` before `*/*`), then
  among equal tokens by parameters (`text/html;level=1` before `text/html`), and
  finally by the order in which they are written.

  Parameters only outrank an entry with the same token: an entry's place among the
  entries of its quality and level (its anchor) is its own position, or the earlier
  position of an entry written with its token and quality and fewer parameters. So
  `text/xml;level=1` written after `text/html` stays after it, while
  `text/html;level=1` moves up next to an earlier `text/html`.
*/
module Ranking {
  import opened Entries

  /** The sort key of an entry within the entries of its header. */
  datatype Key = Key(quality: int, level: int, anchor: int, params: int, order: int)

  /** `a` ranks strictly ahead of `b`: the keys compared field by field. */
  predicate Before(a: Key, b: Key)
  {
    a.quality > b.quality
    || (a.quality == b.quality && a.level > b.level)
    || (a.quality == b.quality && a.level == b.level && a.anchor < b.anchor)
    || (a.quality == b.quality && a.level == b.level && a.anchor == b.anchor && a.params > b.params)
    || (a.quality == b.quality && a.level == b.level && a.anchor == b.anchor && a.params == b.params
        && a.order < b.order)
  }

  /** `f` is written with `e`'s token and quality but with fewer parameters. */
  predicate Under(f: Entry, e: Entry)
  {
    f.token == e.token && f.quality == e.quality && |f.params| < |e.params|
  }

  /**
    The place `e` is ranked at among the entries of its quality and level: the earliest
    position of `e` itself and of the entries `Under` it.
  */
  function Anchor(e: Entry, es: seq<Entry>): nat
  {
    if es == [] then e.order
    else if Under(es[0], e) && es[0].order < Anchor(e, es[1..]) then es[0].order
    else Anchor(e, es[1..])
  }

  function KeyOf(e: Entry, es: seq<Entry>): Key
  {
    Key(e.quality, Level(e.token), Anchor(e, es), |e.params|, e.order)
  }

  /** `a` ranks strictly ahead of `b` among the entries `es` of one header. */
  predicate Ahead(a: Entry, b: Entry, es: seq<Entry>)
  {
    Before(KeyOf(a, es), KeyOf(b, es))
  }

  /** The ranking order of one header's entries, as a comparison the sort is given. */
  function RankOrder(es: seq<Entry>): (Entry, Entry) -> bool
  {
    (a: Entry, b: Entry) => Ahead(a, b, es)
  }

  /**
    What a stable sort needs of its comparison: no two entries are each ahead of the
    other, and "not ahead" chains (entries of equal rank fall in one class).
  */
  ghost predicate StrictWeakOrder(ahead: (Entry, Entry) -> bool)
  {
    && (forall x, y :: ahead(x, y) ==> !ahead(y, x))
    && (forall x, y, z :: !ahead(x, y) && !ahead(y, z) ==> !ahead(x, z))
  }

  /** Inserts `x` into `s`, moving it ahead of the entries it ranks before (scanning from the back). */
  function Insert(x: Entry, s: seq<Entry>, ahead: (Entry, Entry) -> bool): seq<Entry>
  {
    if s == [] then [x]
    else if ahead(x, s[|s| - 1]) then Insert(x, s[..|s| - 1], ahead) + [s[|s| - 1]]
    else s + [x]
  }

  /**
    Insertion sort, the specification of the in-place sort below: it keeps the same
    entries, each as often as before, and under a strict weak order no entry ends up
    behind one that is ahead of it.
  */
  function Sort(s: seq<Entry>, ahead: (Entry, Entry) -> bool): (r: seq<Entry>)
    ensures multiset(r) == multiset(s)
    ensures StrictWeakOrder(ahead) ==> Sorted(r, ahead)
  {
    if s == [] then []
    else
      var init, last := s[..|s| - 1], s[|s| - 1];
      var sorted := Sort(init, ahead);
      InsertPermutes(last, sorted, ahead);
      InsertSorted(last, sorted, ahead);
      assert s == init + [last];
      Insert(last, sorted, ahead)
  }

  /**
    The entries of a header in negotiation order: the header's entries, each as often
    as it is written, none ranked behind one it ranks ahead of.
  */
  function Rank(es: seq<Entry>): (r: seq<Entry>)
    ensures multiset(r) == multiset(es)
    ensures Sorted(r, RankOrder(es))
  {
    RankOrderIsStrictWeak(es);
    Sort(es, RankOrder(es))
  }

  // ---------------------------------------------------------------------------
  // The key order is a strict total order, so the ranking order is a strict weak order.

  lemma BeforeTotal(a: Key, b: Key)
    ensures Before(a, b) || Before(b, a) || a == b
    ensures !(Before(a, b) && Before(b, a))
  {
  }

  lemma BeforeTransitive(a: Key, b: Key, c: Key)
    requires Before(a, b) && Before(b, c)
    ensures Before(a, c)
  {
  }

  lemma RankOrderIsStrictWeak(es: seq<Entry>)
    ensures StrictWeakOrder(RankOrder(es))
  {
    var ahead := RankOrder(es);
    forall x, y | ahead(x, y) ensures !ahead(y, x) {
      BeforeTotal(KeyOf(x, es), KeyOf(y, es));
    }
    forall x, y, z | !ahead(x, y) && !ahead(y, z) ensures !ahead(x, z) {
      var a, b, c := KeyOf(x, es), KeyOf(y, es), KeyOf(z, es);
      BeforeTotal(a, b);
      BeforeTotal(b, c);
      if Before(b, a) && Before(c, b) {
        BeforeTransitive(c, b, a);
      }
      BeforeTotal(a, c);
    }
  }

  /** No later entry is ahead of an earlier one. */
  predicate Sorted(s: seq<Entry>, ahead: (Entry, Entry) -> bool)
  {
    forall i, j | 0 <= i < j < |s| :: !ahead(s[j], s[i])
  }

  lemma {:induction false} InsertPermutes(x: Entry, s: seq<Entry>, ahead: (Entry, Entry) -> bool)
    ensures multiset(Insert(x, s, ahead)) == multiset(s) + multiset{x}
    decreases |s|
  {
    if s != [] && ahead(x, s[|s| - 1]) {
      var init, last := s[..|s| - 1], s[|s| - 1];
      InsertPermutes(x, init, ahead);
      assert s == init + [last];
    }
  }

  lemma {:induction false} InsertSorted(x: Entry, s: seq<Entry>, ahead: (Entry, Entry) -> bool)
    ensures StrictWeakOrder(ahead) && Sorted(s, ahead) ==> Sorted(Insert(x, s, ahead), ahead)
    decreases |s|
  {
    if s != [] && StrictWeakOrder(ahead) && Sorted(s, ahead) {
      var init, last := s[..|s| - 1], s[|s| - 1];
      if ahead(x, last) {
        InsertSorted(x, init, ahead);
        InsertPermutes(x, init, ahead);
        var r := Insert(x, init, ahead);
        forall k | 0 <= k < |r| ensures !ahead(last, r[k]) {
          assert r[k] in multiset(init) + multiset{x};
          if r[k] != x {
            var m :| 0 <= m < |init| && init[m] == r[k];
            assert !ahead(s[|s| - 1], s[m]);
          }
        }
      } else {
        forall k | 0 <= k < |s| - 1 ensures !ahead(x, s[k]) {
          assert !ahead(s[|s| - 1], s[k]);
        }
      }
    }
  }

  /** In a chain where each entry is ahead of the next, every entry is ahead of every later one. */
  lemma {:induction false} ChainAhead(s: seq<Entry>, ahead: (Entry, Entry) -> bool, i: nat, j: nat)
    requires StrictWeakOrder(ahead)
    requires forall k | 0 <= k < |s| - 1 :: ahead(s[k], s[k + 1])
    requires i < j < |s|
    ensures ahead(s[i], s[j])
    decreases j - i
  {
    if i + 1 < j {
      ChainAhead(s, ahead, i + 1, j);
      assert ahead(s[i], s[i + 1]) && !ahead(s[j], s[i + 1]);
    }
  }

  lemma SortedTail(r: seq<Entry>, ahead: (Entry, Entry) -> bool)
    requires r != [] && Sorted(r, ahead)
    ensures Sorted(r[1..], ahead)
  {
    forall i, j | 0 <= i < j < |r| - 1 ensures !ahead(r[1..][j], r[1..][i]) {
      assert r[1..][j] == r[j + 1] && r[1..][i] == r[i + 1];
    }
  }

  lemma MultisetTail(r: seq<Entry>, s: seq<Entry>)
    requires r != [] && s != [] && r[0] == s[0] && multiset(r) == multiset(s)
    ensures multiset(r[1..]) == multiset(s[1..])
  {
    assert r == [r[0]] + r[1..];
    assert s == [s[0]] + s[1..];
    assert multiset(r) == multiset{r[0]} + multiset(r[1..]);
    assert multiset(s) == multiset{s[0]} + multiset(s[1..]);
    assert multiset(r[1..]) == multiset(r) - multiset{r[0]};
  }

  /** The first entry of a sorted arrangement is the head of the chain. */
  lemma HeadsAgree(r: seq<Entry>, s: seq<Entry>, ahead: (Entry, Entry) -> bool)
    requires StrictWeakOrder(ahead) && s != []
    requires multiset(r) == multiset(s) && Sorted(r, ahead)
    requires forall k | 0 <= k < |s| - 1 :: ahead(s[k], s[k + 1])
    ensures r != [] && r[0] == s[0]
  {
    assert s[0] in multiset(r);
    var k :| 0 <= k < |r| && r[k] == s[0];
    assert r[0] in multiset(s);
    var m :| 0 <= m < |s| && s[m] == r[0];
    if k > 0 && m > 0 {
      ChainAhead(s, ahead, 0, m);
    }
  }

  /**
    A sorted arrangement of entries that can be chained strictly (each ahead of the
    next) is that chain: the order leaves no choice.
  */
  lemma {:induction false} SortedUnique(r: seq<Entry>, s: seq<Entry>, ahead: (Entry, Entry) -> bool)
    requires StrictWeakOrder(ahead)
    requires multiset(r) == multiset(s) && Sorted(r, ahead)
    requires forall k | 0 <= k < |s| - 1 :: ahead(s[k], s[k + 1])
    ensures r == s
    decreases |s|
  {
    if s == [] {
      assert |r| == |multiset(r)| == 0;
    } else {
      HeadsAgree(r, s, ahead);
      MultisetTail(r, s);
      SortedTail(r, ahead);
      forall k | 0 <= k < |s| - 2 ensures ahead(s[1..][k], s[1..][k + 1]) {
        assert s[1..][k] == s[k + 1] && s[1..][k + 1] == s[k + 2];
      }
      SortedUnique(r[1..], s[1..], ahead);
      assert r == [r[0]] + r[1..];
      assert s == [s[0]] + s[1..];
    }
  }

  // ---------------------------------------------------------------------------
  // What ranking promises about a header's entries.

  /**
    The ranking is determined: an arrangement of a header's entries in which each is
    ahead of the next is the ranking.
  */
  lemma RankIs(es: seq<Entry>, s: seq<Entry>)
    requires multiset(s) == multiset(es)
    requires forall k | 0 <= k < |s| - 1 :: Ahead(s[k], s[k + 1], es)
    ensures Rank(es) == s
  {
    RankOrderIsStrictWeak(es);
    SortedUnique(Rank(es), s, RankOrder(es));
  }

  /** An entry's anchor is the least of its own position and those of the entries under it. */
  lemma {:induction false} AnchorOf(e: Entry, es: seq<Entry>)
    ensures Anchor(e, es) <= e.order
    ensures forall f | f in es && Under(f, e) :: Anchor(e, es) <= f.order
    ensures Anchor(e, es) == e.order || exists f | f in es :: Under(f, e) && f.order == Anchor(e, es)
  {
    if es != [] {
      AnchorOf(e, es[1..]);
      assert forall f | f in es :: f == es[0] || f in es[1..];
      assert forall f | f in es[1..] :: f in es;
    }
  }

  /** An entry without parameters has nothing under it, so it is anchored at its own position. */
  lemma AnchorPlain(e: Entry, es: seq<Entry>)
    requires e.params == []
    ensures Anchor(e, es) == e.order
  {
    AnchorOf(e, es);
  }

  /**
    An entry with as many parameters as another of its token and quality, or more, is
    anchored no later than it.
  */
  lemma AnchorUnder(e: Entry, f: Entry, es: seq<Entry>)
    requires e in es && f.token == e.token && f.quality == e.quality && |e.params| <= |f.params|
    ensures Anchor(f, es) <= Anchor(e, es) || (|e.params| == |f.params| && e.order < f.order)
  {
    AnchorOf(e, es);
    AnchorOf(f, es);
    if |e.params| < |f.params| {
      assert Under(e, f);
    }
  }

  /** Higher quality first. */
  lemma RankQualityDescending(es: seq<Entry>)
    ensures forall i, j | 0 <= i < j < |Rank(es)| :: Rank(es)[i].quality >= Rank(es)[j].quality
  {
  }

  /** At equal quality, exact tokens before partial wildcards before full wildcards. */
  lemma RankLevelDescending(es: seq<Entry>)
    ensures forall i, j | 0 <= i < j < |Rank(es)| && Rank(es)[i].quality == Rank(es)[j].quality
      :: Level(Rank(es)[i].token) >= Level(Rank(es)[j].token)
  {
  }

  /** Among entries with the same token and quality, more parameters first. */
  lemma RankParamsDescending(es: seq<Entry>)
    ensures forall i, j | 0 <= i < j < |Rank(es)|
      && Rank(es)[i].token == Rank(es)[j].token && Rank(es)[i].quality == Rank(es)[j].quality
      :: |Rank(es)[i].params| >= |Rank(es)[j].params|
  {
    var r := Rank(es);
    forall i, j | 0 <= i < j < |r| && r[i].token == r[j].token && r[i].quality == r[j].quality
      ensures |r[i].params| >= |r[j].params|
    {
      assert r[i] in multiset(es);
      if |r[i].params| < |r[j].params| {
        AnchorUnder(r[i], r[j], es);
      }
    }
  }

  /**
    At equal quality and level, an entry is ranked ahead of one written before it only
    when an entry of its own token and quality, with fewer parameters, is written no
    later than the one it overtakes (`text/html;level=1` joins `text/html`).
  */
  lemma RankOvertakes(es: seq<Entry>)
    ensures forall i, j | 0 <= i < j < |Rank(es)|
      && Rank(es)[i].quality == Rank(es)[j].quality && Level(Rank(es)[i].token) == Level(Rank(es)[j].token)
      && Rank(es)[j].order < Rank(es)[i].order
      :: exists f | f in es :: Under(f, Rank(es)[i]) && f.order <= Rank(es)[j].order
  {
    var r := Rank(es);
    forall i, j | 0 <= i < j < |r| && r[i].quality == r[j].quality && Level(r[i].token) == Level(r[j].token)
        && r[j].order < r[i].order
      ensures exists f | f in es :: Under(f, r[i]) && f.order <= r[j].order
    {
      AnchorOf(r[i], es);
      AnchorOf(r[j], es);
    }
  }

  /** Entries equal in quality, token and parameter count keep the order they are written in. */
  lemma RankStable(es: seq<Entry>)
    ensures forall i, j | 0 <= i < j < |Rank(es)|
      && Rank(es)[i].token == Rank(es)[j].token && Rank(es)[i].quality == Rank(es)[j].quality
      && |Rank(es)[i].params| == |Rank(es)[j].params|
      :: Rank(es)[i].order <= Rank(es)[j].order
  {
    var r := Rank(es);
    forall i, j | 0 <= i < j < |r| && r[i].token == r[j].token && r[i].quality == r[j].quality
        && |r[i].params| == |r[j].params|
      ensures r[i].order <= r[j].order
    {
      assert r[i] in multiset(es);
      AnchorUnder(r[i], r[j], es);
    }
  }

  // ---------------------------------------------------------------------------
  // The ranking as the source performs it: a stable insertion sort in place.

  /**
    Where insertion puts `x`: after the entries it is not ahead of, when it is ahead of
    every entry from position `j` on and not of the one just before.
  */
  lemma {:induction false} InsertLands(x: Entry, p: seq<Entry>, j: nat, ahead: (Entry, Entry) -> bool)
    requires j <= |p|
    requires forall k | j <= k < |p| :: ahead(x, p[k])
    requires j == 0 || !ahead(x, p[j - 1])
    ensures Insert(x, p, ahead) == p[..j] + [x] + p[j..]
    decreases |p|
  {
    if |p| > j {
      var init := p[..|p| - 1];
      InsertLands(x, init, j, ahead);
      assert init[..j] == p[..j];
      assert init[j..] + [p[|p| - 1]] == p[j..];
    }
  }

  lemma SortExtend(input: seq<Entry>, i: nat, ahead: (Entry, Entry) -> bool)
    requires i < |input|
    ensures Sort(input[..i + 1], ahead) == Insert(input[i], Sort(input[..i], ahead), ahead)
  {
    assert input[..i + 1][..i] == input[..i];
  }

  /**
    The array contents `s` while an entry moves back into the prefix `p`: positions
    before `j` still hold `p`, the entries of `p` from `j` on sit one place later, and
    the entries after the prefix are `rest`; position `j` is the free slot.
  */
  ghost predicate Shifted(s: seq<Entry>, p: seq<Entry>, rest: seq<Entry>, j: nat)
  {
    && |s| == |p| + 1 + |rest| && j <= |p|
    && s[..j] == p[..j] && s[j + 1..|p| + 1] == p[j..] && s[|p| + 1..] == rest
  }

  lemma ShiftStep(s: seq<Entry>, p: seq<Entry>, rest: seq<Entry>, j: nat)
    requires Shifted(s, p, rest, j) && 0 < j
    ensures Shifted(s[j := s[j - 1]], p, rest, j - 1)
  {
    var t := s[j := s[j - 1]];
    assert t[..j - 1] == s[..j - 1] == p[..j - 1];
    assert t[j..|p| + 1] == [p[j - 1]] + s[j + 1..|p| + 1];
    assert p[j - 1..] == [p[j - 1]] + p[j..];
  }

  lemma ShiftDone(s: seq<Entry>, p: seq<Entry>, rest: seq<Entry>, j: nat, x: Entry)
    requires Shifted(s, p, rest, j)
    ensures s[j := x][..|p| + 1] == p[..j] + [x] + p[j..]
    ensures s[j := x][|p| + 1..] == rest
  {
  }

  /** Moves `a[i]` back into the sorted prefix `a[..i]`, past the entries it is ahead of. */
  method InsertInPlace(a: array<Entry>, i: nat, ahead: (Entry, Entry) -> bool)
    requires i < a.Length
    modifies a
    ensures a[..i + 1] == Insert(old(a[i]), old(a[..i]), ahead)
    ensures a[i + 1..] == old(a[i + 1..])
  {
    var x := a[i];
    ghost var p, rest := a[..i], a[i + 1..];
    assert Shifted(a[..], p, rest, i);
    var j := i;
    while j > 0 && ahead(x, a[j - 1])
      invariant 0 <= j <= i
      invariant Shifted(a[..], p, rest, j)
      invariant forall k | j <= k < i :: ahead(x, p[k])
    {
      assert a[j - 1] == p[j - 1];
      ShiftStep(a[..], p, rest, j);
      a[j] := a[j - 1];
      j := j - 1;
    }
    if j > 0 {
      assert a[j - 1] == p[j - 1];
    }
    InsertLands(x, p, j, ahead);
    ShiftDone(a[..], p, rest, j, x);
    a[j] := x;
  }

  /** Sorts `a` by `ahead`: a stable insertion sort. */
  method SortInPlace(a: array<Entry>, ahead: (Entry, Entry) -> bool)
    modifies a
    ensures a[..] == Sort(old(a[..]), ahead)
  {
    ghost var input := a[..];
    var i := 0;
    while i < a.Length
      invariant 0 <= i <= a.Length
      invariant a[..i] == Sort(input[..i], ahead)
      invariant a[i..] == input[i..]
    {
      SortStep(a, i, ahead, input);
      i := i + 1;
    }
    assert input[..a.Length] == input;
  }

  /** One step of the sort: the sorted prefix grows by the next input entry. */
  method SortStep(a: array<Entry>, i: nat, ahead: (Entry, Entry) -> bool, ghost input: seq<Entry>)
    requires i < a.Length == |input|
    requires a[..i] == Sort(input[..i], ahead) && a[i..] == input[i..]
    modifies a
    ensures a[..i + 1] == Sort(input[..i + 1], ahead) && a[i + 1..] == input[i + 1..]
  {
    SortExtend(input, i, ahead);
    assert a[i] == input[i] by {
      assert a[i..][0] == input[i..][0];
    }
    ghost var sorted := a[..i];
    InsertInPlace(a, i, ahead);
    assert a[..i + 1] == Insert(input[i], sorted, ahead);
    assert a[i + 1..] == input[i + 1..];
  }

  /** Ranks a header's entries by copying them into an array and sorting it in place. */
  method RankEntries(es: seq<Entry>) returns (r: seq<Entry>)
    ensures r == Rank(es)
  {
    var a := new Entry[|es|](i requires 0 <= i < |es| => es[i]);
    assert a[..] == es;
    SortInPlace(a, RankOrder(es));
    r := a[..];
  }
}
