/**
  The weighted entry parser shared by the Accept, Accept-Charset and Accept-Encoding
  headers: a header value is split at its top-level commas, each element at its
  top-level semicolons into a base token and parameters; the `q` parameter becomes
  the entry's quality and every other parameter is kept verbatim.
*/
module Entries {
  import opened Wrappers
  import opened Text
  import QValue

  type Quality = QValue.Quality

  /** A parameter `name=value` as written (quotes kept); `name` alone has no value. */
  datatype Param = Param(name: string, value: Option<string>)

  /**
    One element of a header value: its base token (`text/html`, `gzip`, `*`), the
    parameters other than `q`, its quality in thousandths, and its position among
    the elements of the header (the final tie-break when ranking).
  */
  datatype Entry = Entry(token: string, params: seq<Param>, quality: Quality, order: nat)

  predicate IsQ(p: Param) { p.name == "q" || p.name == "Q" }

  /** Reads one parameter; the first `=` separates name from value. */
  function ParseParam(s: string): (p: Param)
    ensures Trimmed(p.name)
  {
    var k := IndexOf(s, '=', 0);
    TrimResult(s[..k]);
    if k == |s| then TrimResult(s); Param(Trim(s), None)
    else
      TrimResult(s[k + 1..]);
      Param(Trim(s[..k]), Some(Trim(s[k + 1..])))
  }

  /** Reads the parameters of an element, skipping empty ones (`text/html;;level=1`). */
  function ParseParams(parts: seq<string>): (ps: seq<Param>)
    ensures |ps| <= |parts|
  {
    if parts == [] then []
    else if Trim(parts[0]) == [] then ParseParams(parts[1..])
    else [ParseParam(parts[0])] + ParseParams(parts[1..])
  }

  /** The quality given by the first `q` parameter; full quality when there is none. */
  function QualityOf(ps: seq<Param>): (q: Quality)
    ensures (forall p | p in ps :: !IsQ(p)) ==> q == QValue.Full
  {
    if ps == [] then QValue.Full
    else if IsQ(ps[0]) then
      match ps[0].value
      case Some(v) => QValue.Parse(v)
      case None => QValue.Full
    else QualityOf(ps[1..])
  }

  /** The parameters that identify the candidate: all but `q`, in their written order. */
  function WithoutQ(ps: seq<Param>): (r: seq<Param>)
    ensures forall p | p in r :: p in ps && !IsQ(p)
  {
    if ps == [] then []
    else if IsQ(ps[0]) then WithoutQ(ps[1..])
    else [ps[0]] + WithoutQ(ps[1..])
  }

  /** Removing `q` keeps every other parameter. */
  lemma {:induction false} WithoutQKeeps(ps: seq<Param>)
    ensures forall p | p in ps && !IsQ(p) :: p in WithoutQ(ps)
  {
    if ps != [] {
      WithoutQKeeps(ps[1..]);
      forall p | p in ps && !IsQ(p) ensures p in WithoutQ(ps) {
        if p != ps[0] {
          assert p in ps[1..];
        }
      }
    }
  }

  /** An element without `q` keeps all of its parameters, in the written order. */
  lemma {:induction false} WithoutQNone(ps: seq<Param>)
    requires forall p | p in ps :: !IsQ(p)
    ensures WithoutQ(ps) == ps
  {
    if ps != [] {
      assert ps[0] in ps;
      assert forall p | p in ps[1..] :: p in ps;
      WithoutQNone(ps[1..]);
    }
  }


  /** Reads one comma-separated element as the entry at position `order`. */
  function ParseEntry(element: string, order: nat): (e: Entry)
    ensures e.order == order && Trimmed(e.token)
    ensures forall p | p in e.params :: !IsQ(p)
  {
    var parts := Split(element, ';');
    TrimResult(parts[0]);
    var ps := ParseParams(parts[1..]);
    Entry(Trim(parts[0]), WithoutQ(ps), QualityOf(ps), order)
  }

  /** The elements that hold more than whitespace (`gzip,,deflate` has two). */
  function NonBlank(elements: seq<string>): (r: seq<string>)
    ensures forall x :: x in r <==> x in elements && Trim(x) != []
    ensures |r| <= |elements|
  {
    if elements == [] then []
    else
      assert forall x | x in elements :: x == elements[0] || x in elements[1..];
      if Trim(elements[0]) == [] then NonBlank(elements[1..])
      else [elements[0]] + NonBlank(elements[1..])
  }

  /** The entries of a header value in the order they are written; unset or blank gives none. */
  function ParseHeader(raw: Option<string>): (es: seq<Entry>)
    ensures Numbered(es)
  {
    match raw
    case None => []
    case Some(s) => NumberFrom(NonBlank(Split(s, ',')), 0)
  }

  /** Reads each element as an entry, numbering them upwards from `from`. */
  function NumberFrom(elements: seq<string>, from: nat): (es: seq<Entry>)
    ensures |es| == |elements|
    ensures forall i | 0 <= i < |es| :: es[i].order == from + i
    decreases |elements|
  {
    if elements == [] then []
    else
      var first := ParseEntry(elements[0], from);
      var rest := NumberFrom(elements[1..], from + 1);
      assert forall i | 1 <= i < |rest| + 1 :: ([first] + rest)[i] == rest[i - 1];
      [first] + rest
  }

  /** A header with no blank element keeps all of its elements, in order. */
  lemma {:induction false} NonBlankAll(elements: seq<string>)
    requires forall k | 0 <= k < |elements| :: Trim(elements[k]) != []
    ensures NonBlank(elements) == elements
  {
    if elements != [] {
      assert Trim(elements[0]) != [];
      assert forall k | 0 <= k < |elements[1..]| :: elements[1..][k] == elements[k + 1];
      NonBlankAll(elements[1..]);
    }
  }

  /** Dropping blank elements keeps the written order: the kept elements of a part come before those of a later part. */
  lemma {:induction false} NonBlankAppend(a: seq<string>, b: seq<string>)
    ensures NonBlank(a + b) == NonBlank(a) + NonBlank(b)
  {
    if a == [] {
      assert a + b == b;
    } else {
      assert (a + b)[0] == a[0] && (a + b)[1..] == a[1..] + b;
      NonBlankAppend(a[1..], b);
    }
  }

  /** The entry at each position is its element read with its own number. */
  lemma {:induction false} NumberFromAt(elements: seq<string>, from: nat)
    ensures forall i | 0 <= i < |elements| :: NumberFrom(elements, from)[i] == ParseEntry(elements[i], from + i)
    decreases |elements|
  {
    if elements != [] {
      NumberFromAt(elements[1..], from + 1);
      var r, rest := NumberFrom(elements, from), NumberFrom(elements[1..], from + 1);
      assert r == [ParseEntry(elements[0], from)] + rest;
      forall i | 0 <= i < |elements| ensures r[i] == ParseEntry(elements[i], from + i) {
        if i > 0 {
          assert r[i] == rest[i - 1];
          assert elements[i] == elements[1..][i - 1];
        }
      }
    }
  }

  /** Numbering an element ahead of others gives it the first number. */
  lemma NumberFromCons(element: string, rest: seq<string>, from: nat)
    ensures NumberFrom([element] + rest, from) == [ParseEntry(element, from)] + NumberFrom(rest, from + 1)
  {
    assert ([element] + rest)[1..] == rest;
  }

  /**
    A header written as non-blank elements joined by commas, none holding a comma
    outside quotes, reads as those elements' entries in the order written.
  */
  lemma ParseJoined(elements: seq<string>)
    requires elements != []
    requires forall k | 0 <= k < |elements| :: Whole(elements[k], ',') && Trim(elements[k]) != []
    ensures ParseHeader(Some(Join(elements, ','))) == NumberFrom(elements, 0)
  {
    SplitJoin(elements, ',');
    NonBlankAll(elements);
  }

  /** A header whose elements read as the given entries reads as exactly those entries. */
  lemma ReadHeader(elements: seq<string>, es: seq<Entry>)
    requires elements != [] && |es| == |elements|
    requires forall k | 0 <= k < |elements| :: Whole(elements[k], ',') && Trim(elements[k]) != []
    requires forall k | 0 <= k < |elements| :: ParseEntry(elements[k], k) == es[k]
    ensures ParseHeader(Some(Join(elements, ','))) == es
  {
    ParseJoined(elements);
    NumberFromAt(elements, 0);
  }

  /**
    An element written as parts joined by semicolons, none holding a semicolon outside
    quotes, has the first part as its token and the rest as its parameters.
  */
  lemma EntryJoined(parts: seq<string>, order: nat)
    requires parts != [] && AllWhole(parts, ';')
    ensures var ps := ParseParams(parts[1..]);
      ParseEntry(Join(parts, ';'), order) == Entry(Trim(parts[0]), WithoutQ(ps), QualityOf(ps), order)
  {
    AllWholeMeans(parts, ';');
    SplitJoin(parts, ';');
  }

  /** An element without parameters or quotes is its trimmed token at full quality. */
  lemma PlainEntry(element: string, order: nat)
    requires ';' !in element && '"' !in element
    ensures ParseEntry(element, order) == Entry(Trim(element), [], QValue.Full, order)
  {
    NoQuotes(element);
    EntryJoined([element], order);
  }

  /** A parameter written `name=value`: the first `=` ends the name, and both are trimmed. */
  lemma ParamText(name: string, value: string)
    requires '=' !in name
    ensures ParseParam(name + "=" + value) == Param(Trim(name), Some(Trim(value)))
  {
    var s := name + "=" + value;
    var k := IndexOf(s, '=', 0);
    assert s[|name|] == '=';
    assert forall j | 0 <= j < |name| :: s[j] == name[j];
    assert k == |name|;
    assert s[..k] == name && s[k + 1..] == value;
  }

  /** A parameter written without `=` is a bare trimmed name. */
  lemma ParamBare(name: string)
    requires '=' !in name
    ensures ParseParam(name) == Param(Trim(name), None)
  {
  }

  /** The first `q` parameter decides the quality, whatever follows it. */
  lemma {:induction false} QualityFirst(ps: seq<Param>, k: nat, v: string)
    requires k < |ps| && IsQ(ps[k]) && ps[k].value == Some(v)
    requires forall j | 0 <= j < k :: !IsQ(ps[j])
    ensures QualityOf(ps) == QValue.Parse(v)
  {
    if k > 0 {
      QualityFirst(ps[1..], k - 1, v);
    }
  }

  lemma {:induction false} ParseParamsAppend(a: seq<string>, b: seq<string>)
    ensures ParseParams(a + b) == ParseParams(a) + ParseParams(b)
  {
    if a == [] {
      assert a + b == b;
    } else {
      assert (a + b)[0] == a[0];
      assert (a + b)[1..] == a[1..] + b;
      ParseParamsAppend(a[1..], b);
    }
  }

  lemma {:induction false} WithoutQAppend(a: seq<Param>, b: seq<Param>)
    ensures WithoutQ(a + b) == WithoutQ(a) + WithoutQ(b)
  {
    if a == [] {
      assert a + b == b;
    } else {
      assert (a + b)[0] == a[0];
      assert (a + b)[1..] == a[1..] + b;
      WithoutQAppend(a[1..], b);
    }
  }

  /**
    A piece written so that neither splitter nor trimming alters it: not empty, no
    surrounding whitespace, no comma, semicolon or quote.
  */
  predicate Bare(s: string)
  {
    s != [] && Trimmed(s) && ',' !in s && ';' !in s && '"' !in s
  }

  /** A parameter value that reads back as written; quoted strings must be closed. */
  predicate ValueText(v: string)
  {
    Trimmed(v) && ',' !in v && ';' !in v && Quotes(v) % 2 == 0
  }

  /** A parameter other than `q` that reads back as the parameter written. */
  predicate Written(p: Param)
  {
    Bare(p.name) && '=' !in p.name && !IsQ(p) && (p.value.Some? ==> ValueText(p.value.value))
  }

  /** The text of each parameter, in order. */
  function Texts(ps: seq<Param>): (r: seq<string>)
    ensures |r| == |ps|
    ensures forall j | 0 <= j < |ps| :: r[j] == FormatParam(ps[j])
  {
    if ps == [] then [] else [FormatParam(ps[0])] + Texts(ps[1..])
  }

  /** A written parameter reads back as itself. */
  lemma ParamRead(p: Param)
    requires Written(p)
    ensures ParseParam(FormatParam(p)) == p
  {
    TrimTrimmed(p.name);
    match p.value
    case None =>
      ParamBare(p.name);
    case Some(v) =>
      ParamText(p.name, v);
      TrimTrimmed(v);
  }

  /** A written parameter is not blank and holds no comma, semicolon or open quote. */
  lemma ParamClean(p: Param)
    requires Written(p)
    ensures Trim(FormatParam(p)) != [] && Whole(FormatParam(p), ';') && ',' !in FormatParam(p)
  {
    var s := FormatParam(p);
    TrimResult(s);
    assert s[0] == p.name[0];
    NoQuotes(p.name);
    match p.value
    case None =>
    case Some(v) =>
      QuotesAppend(p.name + "=", v);
      QuotesAppend(p.name, "=");
  }

  /** Written parameters read back as the same parameters, in the same order. */
  lemma {:induction false} ParamsRead(ps: seq<Param>)
    requires forall p | p in ps :: Written(p)
    ensures ParseParams(Texts(ps)) == ps
  {
    if ps != [] {
      assert ps[0] in ps;
      ParamRead(ps[0]);
      ParamClean(ps[0]);
      assert forall p | p in ps[1..] :: p in ps;
      ParamsRead(ps[1..]);
      assert Texts(ps)[1..] == Texts(ps[1..]);
    }
  }

  /** Written parameters add no comma to an element. */
  lemma {:induction false} ParamsNoComma(ps: seq<Param>)
    requires forall p | p in ps :: Written(p)
    ensures ',' !in FormatParams(ps)
  {
    if ps != [] {
      assert ps[0] in ps;
      ParamClean(ps[0]);
      assert forall p | p in ps[1..] :: p in ps;
      ParamsNoComma(ps[1..]);
      assert FormatParams(ps) == ";" + FormatParam(ps[0]) + FormatParams(ps[1..]);
    }
  }

  /** Written parameters leave no quoted string open. */
  lemma {:induction false} ParamsQuotes(ps: seq<Param>)
    requires forall p | p in ps :: Written(p)
    ensures Quotes(FormatParams(ps)) % 2 == 0
  {
    if ps != [] {
      assert ps[0] in ps;
      assert forall p | p in ps[1..] :: p in ps;
      ParamsQuotes(ps[1..]);
      ParamQuotes(ps[0]);
      QuotesStep(FormatParam(ps[0]), FormatParams(ps[1..]));
    }
  }

  lemma ParamQuotes(p: Param)
    requires Written(p)
    ensures Quotes(FormatParam(p)) % 2 == 0
  {
    ParamClean(p);
  }

  lemma QuotesStep(head: string, rest: string)
    requires Quotes(head) % 2 == 0 && Quotes(rest) % 2 == 0
    ensures Quotes(";" + head + rest) % 2 == 0
  {
    QuotesAppend(";" + head, rest);
    QuotesAppend(";", head);
    NoQuotes(";");
  }

  /** The parameter texts joined after a token by semicolons are the token's formatted parameters. */
  lemma {:induction false} JoinParams(first: string, ps: seq<Param>)
    ensures Join([first] + Texts(ps), ';') == first + FormatParams(ps)
    decreases |ps|
  {
    if ps != [] {
      JoinCons(first, Texts(ps), ';');
      assert Texts(ps) == [FormatParam(ps[0])] + Texts(ps[1..]);
      JoinParams(FormatParam(ps[0]), ps[1..]);
    }
  }

  /** The parts of an element written as a token, its parameters and maybe more parts. */
  lemma PartsWhole(first: string, ps: seq<Param>, more: seq<string>)
    requires Whole(first, ';') && forall p | p in ps :: Written(p)
    requires forall k | 0 <= k < |more| :: Whole(more[k], ';')
    ensures AllWhole([first] + Texts(ps) + more, ';')
  {
    TextsWhole(ps);
    PiecesWhole(first, Texts(ps), more, ';');
  }

  /** A first piece, more pieces and yet more, each whole, are all whole. */
  lemma PiecesWhole(first: string, mid: seq<string>, more: seq<string>, sep: char)
    requires Whole(first, sep)
    requires forall k | 0 <= k < |mid| :: Whole(mid[k], sep)
    requires forall k | 0 <= k < |more| :: Whole(more[k], sep)
    ensures AllWhole([first] + mid + more, sep)
  {
    AllWholeMeans(mid, sep);
    AllWholeMeans(more, sep);
    AllWholeAppend(mid, more, sep);
    var parts := [first] + (mid + more);
    assert parts[0] == first && parts[1..] == mid + more;
    assert [first] + mid + more == parts;
  }

  /** Each written parameter is whole between semicolons. */
  lemma TextsWhole(ps: seq<Param>)
    requires forall p | p in ps :: Written(p)
    ensures forall j | 0 <= j < |ps| :: Whole(Texts(ps)[j], ';')
  {
    forall j | 0 <= j < |ps| ensures Whole(Texts(ps)[j], ';') {
      assert ps[j] in ps;
      ParamClean(ps[j]);
    }
  }

  /**
    An element with no `q` parameter, written as its token (maybe after one space) and
    its parameters joined by semicolons, reads as that token and those parameters at
    full quality.
  */
  lemma ReadPlain(lead: string, token: string, ps: seq<Param>, order: nat)
    requires lead == [] || lead == [' ']
    requires Bare(token) && forall p | p in ps :: Written(p)
    ensures var e := ParseEntry(Join([lead + token] + Texts(ps), ';'), order);
      e == Entry(token, ps, QValue.Full, order) && Format(e) == Join([token] + Texts(ps), ';')
  {
    ParsePlain(lead, token, ps, order);
    JoinParams(token, ps);
  }

  lemma ParsePlain(lead: string, token: string, ps: seq<Param>, order: nat)
    requires lead == [] || lead == [' ']
    requires Bare(token) && forall p | p in ps :: Written(p)
    ensures ParseEntry(Join([lead + token] + Texts(ps), ';'), order) == Entry(token, ps, QValue.Full, order)
  {
    var parts := [lead + token] + Texts(ps);
    NoQuotes(lead + token);
    PartsWhole(lead + token, ps, []);
    assert parts == [lead + token] + Texts(ps) + [];
    EntryJoined(parts, order);
    assert parts[1..] == Texts(ps);
    TrimLead(lead, token);
    ParamsRead(ps);
    WithoutQNone(ps);
  }

  /** The `q` parameter, maybe after one space, is whole and reads as `q` with its value. */
  lemma QWhole(qlead: string, v: string)
    requires qlead == [] || qlead == [' ']
    requires ValueText(v)
    ensures Whole(qlead + "q" + "=" + v, ';')
  {
    NoQuotes(qlead + "q" + "=");
    QuotesAppend(qlead + "q" + "=", v);
  }

  lemma QRead(qlead: string, v: string)
    requires qlead == [] || qlead == [' ']
    requires ValueText(v)
    ensures ParseParam(qlead + "q" + "=" + v) == Param("q", Some(v))
  {
    assert '=' !in qlead + "q";
    ParamText(qlead + "q", v);
    assert Trimmed("q");
    TrimLead(qlead, "q");
    TrimTrimmed(v);
  }

  lemma QFilled(qlead: string, v: string)
    requires qlead == [] || qlead == [' ']
    ensures Trim(qlead + "q" + "=" + v) != []
  {
    var s := qlead + "q" + "=" + v;
    TrimResult(s);
    assert s[|qlead|] == 'q';
  }

  lemma QParams(qlead: string, v: string)
    requires qlead == [] || qlead == [' ']
    requires ValueText(v)
    ensures ParseParams([qlead + "q" + "=" + v]) == [Param("q", Some(v))]
  {
    QRead(qlead, v);
    QFilled(qlead, v);
  }

  /** The parameters of a weighted element: those written, then `q`. */
  lemma WeightedParams(ps: seq<Param>, qtext: string, q: Param)
    requires forall p | p in ps :: Written(p)
    requires ParseParams([qtext]) == [q]
    ensures ParseParams(Texts(ps) + [qtext]) == ps + [q]
  {
    ParseParamsAppend(Texts(ps), [qtext]);
    ParamsRead(ps);
  }

  /** Dropping `q` from written parameters followed by `q` leaves the written ones. */
  lemma WeightedRest(ps: seq<Param>, q: Param)
    requires forall p | p in ps :: Written(p)
    requires IsQ(q)
    ensures WithoutQ(ps + [q]) == ps
  {
    WithoutQAppend(ps, [q]);
    WithoutQNone(ps);
    assert WithoutQ([q]) == [];
  }

  /** Written parameters followed by `q=v` have the quality `v` denotes. */
  lemma WeightedQuality(ps: seq<Param>, v: string)
    requires forall p | p in ps :: Written(p)
    ensures QualityOf(ps + [Param("q", Some(v))]) == QValue.Parse(v)
  {
    var all := ps + [Param("q", Some(v))];
    forall j | 0 <= j < |ps| ensures !IsQ(all[j]) {
      assert all[j] == ps[j] && ps[j] in ps;
    }
    QualityFirst(all, |ps|, v);
  }

  /** The weighted element is its parts joined by semicolons. */
  lemma WeightedJoin(first: string, ps: seq<Param>, qtext: string)
    ensures Join([first] + Texts(ps) + [qtext], ';') == first + FormatParams(ps) + ";" + qtext
  {
    JoinParams(first, ps);
    JoinSnoc([first] + Texts(ps), qtext, ';');
  }

  /** An element whose parts are whole reads as its trimmed first part and the rest's parameters. */
  lemma EntryFrom(parts: seq<string>, token: string, ps: seq<Param>, q: Quality, order: nat)
    requires parts != [] && AllWhole(parts, ';')
    requires Trim(parts[0]) == token
    requires WithoutQ(ParseParams(parts[1..])) == ps && QualityOf(ParseParams(parts[1..])) == q
    ensures ParseEntry(Join(parts, ';'), order) == Entry(token, ps, q, order)
  {
    EntryJoined(parts, order);
  }

  /**
    An element written as its token (maybe after one space), its parameters and a last
    `q=v` (maybe `q` after one space), joined by semicolons, reads as that token and
    those parameters at the quality `v` denotes; formatting it gives back the element
    without its `q` parameter.
  */
  lemma ReadWeighted(lead: string, token: string, ps: seq<Param>, qlead: string, v: string, order: nat)
    requires lead == [] || lead == [' ']
    requires qlead == [] || qlead == [' ']
    requires Bare(token) && forall p | p in ps :: Written(p)
    requires ValueText(v)
    ensures var e := ParseEntry(Join([lead + token] + Texts(ps) + [qlead + "q" + "=" + v], ';'), order);
      e == Entry(token, ps, QValue.Parse(v), order) && Format(e) == Join([token] + Texts(ps), ';')
  {
    var qtext := qlead + "q" + "=" + v;
    var q := Param("q", Some(v));
    var parts := [lead + token] + Texts(ps) + [qtext];
    NoQuotes(lead + token);
    QWhole(qlead, v);
    PartsWhole(lead + token, ps, [qtext]);
    assert parts[1..] == Texts(ps) + [qtext];
    TrimLead(lead, token);
    QParams(qlead, v);
    WeightedParams(ps, qtext, q);
    WeightedRest(ps, q);
    WeightedQuality(ps, v);
    EntryFrom(parts, token, ps, QValue.Parse(v), order);
    JoinParams(token, ps);
  }

  /** An empty header value has no non-blank elements. */
  lemma BlankElements()
    ensures ParseHeader(Some("")) == []
  {
    BlankSplit();
  }

  /** The one element of an empty header value is blank. */
  lemma BlankSplit()
    ensures NonBlank(Split("", ',')) == []
  {
    var blank: string := [];
    SplitEmpty(',');
    assert Trim(blank) == [];
    assert [blank][1..] == [];
    assert NonBlank([blank]) == NonBlank([]);
  }

  /** Entries numbered by their position, as the parser numbers them. */
  predicate Numbered(es: seq<Entry>)
  {
    forall i | 0 <= i < |es| :: es[i].order == i
  }

  /**
    The entry's textual form: the token and every retained parameter, `q` left out, so
    an entry without parameters is written as its bare token.
  */
  function Format(e: Entry): (s: string)
    ensures e.params == [] ==> s == e.token
  {
    e.token + FormatParams(e.params)
  }

  /** An entry whose token and parameters are written plainly reads back from its text as itself, at full quality. */
  lemma FormatReads(e: Entry)
    requires Bare(e.token) && forall p | p in e.params :: Written(p)
    ensures ParseEntry(Format(e), e.order) == e.(quality := QValue.Full)
  {
    ParsePlain([], e.token, e.params, e.order);
    JoinParams(e.token, e.params);
    assert [] + e.token == e.token;
  }

  function FormatParams(ps: seq<Param>): string
  {
    if ps == [] then [] else ";" + FormatParam(ps[0]) + FormatParams(ps[1..])
  }

  function FormatParam(p: Param): string
  {
    match p.value
    case None => p.name
    case Some(v) => p.name + "=" + v
  }

  /** The type part of a media range: everything before the first slash. */
  function MediaType(token: string): string
  {
    token[..IndexOf(token, '/', 0)]
  }

  /** The subtype part of a media range: everything after the first slash. */
  function Subtype(token: string): string
  {
    var k := IndexOf(token, '/', 0);
    if k == |token| then [] else token[k + 1..]
  }

  // `*/*` has the wildcard on both sides of its slash.
  lemma FullWildcard()
    ensures MediaType("*/*") == "*" && Subtype("*/*") == "*"
  {
    var t := "*/*";
    assert t[0] == '*' && t[1] == '/';
    assert IndexOf(t, '/', 0) == 1;
  }

  // How narrowly a token names candidates: 0 for the full wildcards `*` and `*/*`,
  // 1 for a partial wildcard `type/*`, 2 for anything named exactly.
  function Level(token: string): (l: nat)
    ensures l <= 2
    ensures l == 0 <==> token == "*" || token == "*/*"
    ensures l == 1 <==> PartialWildcard(token)
  {
    WildcardShapes(token);
    if token == "*" then 0
    else if Subtype(token) == "*" then (if MediaType(token) == "*" then 0 else 1)
    else 2
  }

  // A token has subtype `*` exactly when it ends in `/*` after a slash-free type.
  lemma SubtypeWildcard(token: string)
    ensures Subtype(token) == "*" <==>
      |token| >= 2 && token[|token| - 2..] == "/*" && '/' !in token[..|token| - 2]
    ensures Subtype(token) == "*" ==> MediaType(token) == token[..|token| - 2]
  {
    var k := IndexOf(token, '/', 0);
    if Subtype(token) == "*" {
      assert k < |token| && token[k + 1..] == "*";
      assert |token| == k + 2;
      assert token[|token| - 2..] == [token[k], token[k + 1]];
      assert forall j | 0 <= j < k :: token[..k][j] == token[j];
    }
    if |token| >= 2 && token[|token| - 2..] == "/*" && '/' !in token[..|token| - 2] {
      assert token[|token| - 2] == '/';
      assert forall j | 0 <= j < |token| - 2 :: token[j] == token[..|token| - 2][j];
      assert k == |token| - 2;
    }
  }

  // The full wildcards are `*` and `*/*` and nothing else; the partial wildcards are
  // exactly `type/*` for a slash-free type other than `*`.
  predicate PartialWildcard(token: string)
  {
    |token| >= 2 && token[|token| - 2..] == "/*"
    && '/' !in token[..|token| - 2] && token[..|token| - 2] != "*"
  }

  lemma WildcardShapes(token: string)
    ensures token == "*" || (Subtype(token) == "*" && MediaType(token) == "*") <==> token == "*" || token == "*/*"
    ensures token != "*" && Subtype(token) == "*" && MediaType(token) != "*" <==> PartialWildcard(token)
  {
    SubtypeWildcard(token);
    FullWildcard();
    if token == "*/*" {
      assert token[..1] == "*" && token[1..] == "/*";
    }
    if |token| >= 2 && token[..|token| - 2] == "*" && token[|token| - 2..] == "/*" {
      assert token == token[..|token| - 2] + token[|token| - 2..];
    }
  }
}
