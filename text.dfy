/**
  Character-level helpers for header values: optional whitespace, separators that are
  only delimiters outside quoted strings, and ASCII case folding.
*/
module Text {

  /** Optional whitespace (OWS) in a header value. */
  predicate IsSpace(c: char) { c == ' ' || c == '\t' }

  /** Drops the leading whitespace. */
  function TrimLeft(s: string): (r: string)
    ensures |r| <= |s|
    ensures r == [] || !IsSpace(r[0])
  {
    if s != [] && IsSpace(s[0]) then TrimLeft(s[1..]) else s
  }

  /** What TrimLeft drops is whitespace, and what it keeps is a suffix. */
  lemma {:induction false} TrimLeftSuffix(s: string)
    ensures TrimLeft(s) == s[|s| - |TrimLeft(s)|..]
    ensures forall i | 0 <= i < |s| - |TrimLeft(s)| :: IsSpace(s[i])
  {
    if s != [] && IsSpace(s[0]) {
      TrimLeftSuffix(s[1..]);
    }
  }

  /** Drops the trailing whitespace. */
  function TrimRight(s: string): (r: string)
    ensures |r| <= |s|
    ensures r == [] || !IsSpace(r[|r| - 1])
  {
    if s != [] && IsSpace(s[|s| - 1]) then TrimRight(s[..|s| - 1]) else s
  }

  /** What TrimRight drops is whitespace, and what it keeps is a prefix. */
  lemma {:induction false} TrimRightPrefix(s: string)
    ensures TrimRight(s) == s[..|TrimRight(s)|]
    ensures forall i | |TrimRight(s)| <= i < |s| :: IsSpace(s[i])
  {
    if s != [] && IsSpace(s[|s| - 1]) {
      TrimRightPrefix(s[..|s| - 1]);
    }
  }

  function Trim(s: string): string { TrimRight(TrimLeft(s)) }

  /** A string with no whitespace at either end. */
  predicate Trimmed(s: string) { s == [] || (!IsSpace(s[0]) && !IsSpace(s[|s| - 1])) }

  lemma TrimResult(s: string)
    ensures Trimmed(Trim(s))
    ensures Trim(s) == [] <==> forall i | 0 <= i < |s| :: IsSpace(s[i])
  {
    var l := TrimLeft(s);
    var r := TrimRight(l);
    TrimLeftSuffix(s);
    TrimRightPrefix(l);
    if r != [] {
      assert r[0] == l[0];
    }
    if r == [] {
      assert l == [];
    }
  }

  /** Trimming leaves a trimmed string as it is. */
  lemma TrimTrimmed(s: string)
    requires Trimmed(s)
    ensures Trim(s) == s
  {
  }

  /** The position of the first `c` at or after `i`, or |s| when there is none. */
  function IndexOf(s: string, c: char, i: nat): (k: nat)
    requires i <= |s|
    ensures i <= k <= |s|
    ensures k < |s| ==> s[k] == c
    ensures forall j | i <= j < k :: s[j] != c
    decreases |s| - i
  {
    if i == |s| || s[i] == c then i else IndexOf(s, c, i + 1)
  }

  /** The number of double quotes in `s`. */
  function Quotes(s: string): nat
  {
    if s == [] then 0 else (if s[0] == '"' then 1 else 0) + Quotes(s[1..])
  }

  /**
    Splits `s[start..]` at every `sep` that lies outside a quoted string; `i` is the
    scan position and `quoted` says whether position `i` is inside quotes.
  */
  function SplitAt(s: string, sep: char, i: nat, start: nat, quoted: bool): (r: seq<string>)
    requires start <= i <= |s|
    ensures |r| >= 1
    decreases |s| - i
  {
    if i == |s| then [s[start..]]
    else if s[i] == sep && !quoted then [s[start..i]] + SplitAt(s, sep, i + 1, i + 1, false)
    else SplitAt(s, sep, i + 1, start, if s[i] == '"' then !quoted else quoted)
  }

  /** The pieces of `s` between its top-level separators. */
  function Split(s: string, sep: char): seq<string>
  {
    SplitAt(s, sep, 0, 0, false)
  }

  /** The empty string splits into one empty piece. */
  lemma SplitEmpty(sep: char)
    ensures Split([], sep) == [[]]
  {
  }

  /** The pieces written out again, one separator between neighbours. */
  function Join(pieces: seq<string>, sep: char): string
  {
    if pieces == [] then []
    else if |pieces| == 1 then pieces[0]
    else pieces[0] + [sep] + Join(pieces[1..], sep)
  }

  lemma {:induction false} JoinSplitAt(s: string, sep: char, i: nat, start: nat, quoted: bool)
    requires start <= i <= |s|
    ensures Join(SplitAt(s, sep, i, start, quoted), sep) == s[start..]
    decreases |s| - i
  {
    if i == |s| {
    } else if s[i] == sep && !quoted {
      JoinSplitAt(s, sep, i + 1, i + 1, false);
      var rest := SplitAt(s, sep, i + 1, i + 1, false);
      assert SplitAt(s, sep, i, start, quoted) == [s[start..i]] + rest;
      assert s[start..] == s[start..i] + [sep] + s[i + 1..];
    } else {
      assert s[start..i + 1] == s[start..i] + [s[i]];
      JoinSplitAt(s, sep, i + 1, start, if s[i] == '"' then !quoted else quoted);
    }
  }

  /** Splitting loses nothing: joining the pieces gives back the input. */
  lemma JoinSplit(s: string, sep: char)
    ensures Join(Split(s, sep), sep) == s
  {
    JoinSplitAt(s, sep, 0, 0, false);
  }

  /** Scanning over a stretch with no separator only flips the quote state once per quote. */
  lemma {:induction false} SplitSkip(s: string, sep: char, i: nat, k: nat, start: nat, quoted: bool)
    requires start <= i <= k <= |s|
    requires sep !in s[i..k]
    ensures SplitAt(s, sep, i, start, quoted)
         == SplitAt(s, sep, k, start, if Quotes(s[i..k]) % 2 == 1 then !quoted else quoted)
    decreases k - i
  {
    if i < k {
      assert s[i] in s[i..k];
      assert s[i..k] == [s[i]] + s[i + 1..k];
      assert s[i..k][1..] == s[i + 1..k];
      var next := if s[i] == '"' then !quoted else quoted;
      assert SplitAt(s, sep, i, start, quoted) == SplitAt(s, sep, i + 1, start, next);
      var n := Quotes(s[i + 1..k]);
      assert Quotes(s[i..k]) == (if s[i] == '"' then 1 else 0) + n;
      assert (if n % 2 == 1 then !next else next)
          == (if Quotes(s[i..k]) % 2 == 1 then !quoted else quoted);
      SplitSkip(s, sep, i + 1, k, start, next);
    }
  }

  /** A piece the splitter leaves whole: no separator, and its quotes are balanced. */
  predicate Whole(p: string, sep: char)
  {
    sep !in p && Quotes(p) % 2 == 0
  }

  lemma {:induction false} SplitJoinAt(s: string, sep: char, start: nat, pieces: seq<string>)
    requires start <= |s| && pieces != []
    requires forall k | 0 <= k < |pieces| :: Whole(pieces[k], sep)
    requires s[start..] == Join(pieces, sep)
    ensures SplitAt(s, sep, start, start, false) == pieces
    decreases |pieces|
  {
    var p := pieces[0];
    var k := start + |p|;
    if |pieces| == 1 {
      assert s[start..k] == p;
      SplitSkip(s, sep, start, k, start, false);
    } else {
      var rest := Join(pieces[1..], sep);
      assert s[start..] == p + [sep] + rest;
      assert s[start..k] == p;
      assert s[k] == sep;
      assert s[k + 1..] == rest;
      SplitSkip(s, sep, start, k, start, false);
      SplitJoinAt(s, sep, k + 1, pieces[1..]);
    }
  }

  /** Joining pieces the splitter leaves whole and splitting again gives the same pieces. */
  lemma SplitJoin(pieces: seq<string>, sep: char)
    requires pieces != []
    requires forall k | 0 <= k < |pieces| :: Whole(pieces[k], sep)
    ensures Split(Join(pieces, sep), sep) == pieces
  {
    var s := Join(pieces, sep);
    assert s[0..] == s;
    SplitJoinAt(s, sep, 0, pieces);
  }

  /** Every piece is one the splitter leaves whole. */
  predicate AllWhole(pieces: seq<string>, sep: char)
  {
    pieces == [] || (Whole(pieces[0], sep) && AllWhole(pieces[1..], sep))
  }

  lemma {:induction false} AllWholeMeans(pieces: seq<string>, sep: char)
    ensures AllWhole(pieces, sep) <==> forall k | 0 <= k < |pieces| :: Whole(pieces[k], sep)
  {
    if pieces != [] {
      AllWholeMeans(pieces[1..], sep);
      assert forall k | 1 <= k < |pieces| :: pieces[k] == pieces[1..][k - 1];
      if forall k | 0 <= k < |pieces| :: Whole(pieces[k], sep) {
        assert Whole(pieces[0], sep);
      }
    }
  }

  /** Pieces that are each whole stay whole when two lists of them are put together. */
  lemma {:induction false} AllWholeAppend(a: seq<string>, b: seq<string>, sep: char)
    requires AllWhole(a, sep) && AllWhole(b, sep)
    ensures AllWhole(a + b, sep)
    decreases |a|
  {
    if a != [] {
      assert (a + b)[1..] == a[1..] + b;
      AllWholeAppend(a[1..], b, sep);
    } else {
      assert a + b == b;
    }
  }

  /** A string without quote characters counts none. */
  lemma {:induction false} NoQuotes(s: string)
    requires '"' !in s
    ensures Quotes(s) == 0
  {
    if s != [] {
      assert s[0] != '"' && '"' !in s[1..];
      NoQuotes(s[1..]);
    }
  }

  /** Quotes are counted piece by piece. */
  lemma {:induction false} QuotesAppend(a: string, b: string)
    ensures Quotes(a + b) == Quotes(a) + Quotes(b)
  {
    if a == [] {
      assert a + b == b;
    } else {
      assert (a + b)[0] == a[0];
      assert (a + b)[1..] == a[1..] + b;
      QuotesAppend(a[1..], b);
    }
  }

  /** Joining a first piece in front of further pieces puts one separator between them. */
  lemma JoinCons(first: string, rest: seq<string>, sep: char)
    requires rest != []
    ensures Join([first] + rest, sep) == first + [sep] + Join(rest, sep)
  {
    assert ([first] + rest)[1..] == rest;
  }

  /** Joining a last piece after further pieces puts one separator between them. */
  lemma {:induction false} JoinSnoc(pieces: seq<string>, last: string, sep: char)
    requires pieces != []
    ensures Join(pieces + [last], sep) == Join(pieces, sep) + [sep] + last
  {
    if |pieces| == 1 {
      assert pieces + [last] == [pieces[0]] + [last];
    } else {
      assert (pieces + [last])[1..] == pieces[1..] + [last];
      JoinSnoc(pieces[1..], last, sep);
    }
  }

  /** One leading space (as after a comma) is trimmed away; a trimmed word is kept. */
  lemma TrimLead(lead: string, s: string)
    requires lead == [] || lead == [' ']
    requires s != [] && Trimmed(s)
    ensures Trim(lead + s) == s
  {
    if lead == [] {
      assert lead + s == s;
      TrimTrimmed(s);
    } else {
      assert lead + s == [' '] + s;
      TrimSpace(' ', s);
    }
  }

  /** A whitespace character before a trimmed word is dropped. */
  lemma TrimSpace(c: char, s: string)
    requires IsSpace(c) && Trimmed(s)
    ensures Trim([c] + s) == s
  {
    assert ([c] + s)[1..] == s;
    assert TrimLeft([c] + s) == TrimLeft(s);
    TrimTrimmed(s);
  }

  /** ASCII lower case; header names and charset names compare without case. */
  function LowerChar(c: char): char
  {
    if 'A' <= c <= 'Z' then (c as int - 'A' as int + 'a' as int) as char else c
  }

  function Lower(s: string): (r: string)
    ensures |r| == |s|
    ensures forall i | 0 <= i < |s| :: r[i] == LowerChar(s[i])
  {
    if s == [] then [] else [LowerChar(s[0])] + Lower(s[1..])
  }

  /** Folding leaves `s` as it is exactly when no upper-case ASCII letter occurs in it. */
  lemma LowerKeeps(s: string)
    ensures Lower(s) == s <==> forall i | 0 <= i < |s| :: !('A' <= s[i] <= 'Z')
  {
    if forall i | 0 <= i < |s| :: !('A' <= s[i] <= 'Z') {
      assert forall i | 0 <= i < |s| :: Lower(s)[i] == s[i];
    }
    if Lower(s) == s {
      forall i | 0 <= i < |s| ensures !('A' <= s[i] <= 'Z') {
        assert LowerChar(s[i]) == s[i];
      }
    }
  }

  /** Folding twice is folding once. */
  lemma LowerIdempotent(s: string)
    ensures Lower(Lower(s)) == Lower(s)
  {
  }
}
