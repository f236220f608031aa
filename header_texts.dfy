/**
  Header values as they are written in the worked examples. An example element is
  described by the pieces it is written from (an optional space, the token, the
  parameters and maybe a `q` parameter); `PieceReads` shows that every such element
  reads as the entry it describes, and `HeaderReads` that a header of such elements
  joined by commas reads as those entries, numbered in the order written.
*/
module HeaderTexts {
  import opened Wrappers
  import opened Text
  import QValue
  import opened Entries

  /** A `q` parameter as written: maybe one space before `q`, then `q=` and the value. */
  datatype Weight = Weight(lead: string, value: string)

  /** One element as written: maybe one space, the token, its parameters, maybe a `q` parameter. */
  datatype Piece = Piece(lead: string, token: string, params: seq<Param>, weight: Option<Weight>)

  /** The whitespace allowed before a token or a `q`: none or a single space. */
  predicate Lead(s: string) { s == [] || s == [' '] }

  /** A piece whose text the splitters leave whole and the trimming leaves as meant. */
  predicate Readable(w: Piece)
  {
    Lead(w.lead) && Bare(w.token) && (forall p | p in w.params :: Written(p)) &&
    (w.weight.Some? ==> Lead(w.weight.value.lead) && ValueText(w.weight.value.value))
  }

  function WeightText(q: Weight): string
  {
    q.lead + "q" + "=" + q.value
  }

  /** The text of a piece. */
  function PieceText(w: Piece): string
  {
    match w.weight
    case None => w.lead + w.token + FormatParams(w.params)
    case Some(q) => w.lead + w.token + FormatParams(w.params) + ";" + WeightText(q)
  }

  /** The entry a piece describes, at position `order`. */
  function Meant(w: Piece, order: nat): Entry
  {
    match w.weight
    case None => Entry(w.token, w.params, QValue.Full, order)
    case Some(q) => Entry(w.token, w.params, QValue.Parse(q.value), order)
  }

  /** An element that reads as `e` and that the comma splitter and the blank filter keep. */
  predicate Reads(element: string, order: nat, e: Entry)
  {
    ParseEntry(element, order) == e && Whole(element, ',') && Trim(element) != []
  }

  /** A string whose first non-blank character is a token's does not trim to nothing. */
  lemma Filled(e: string, lead: string, token: string, rest: string)
    requires Lead(lead) && Bare(token)
    requires e == lead + token + rest
    ensures Trim(e) != []
  {
    assert e[|lead|] == token[0];
    TrimResult(e);
  }

  lemma PlainWhole(lead: string, token: string, ps: seq<Param>)
    requires Lead(lead) && Bare(token) && forall p | p in ps :: Written(p)
    ensures Whole(lead + token + FormatParams(ps), ',')
  {
    ParamsNoComma(ps);
    ParamsQuotes(ps);
    NoQuotes(lead + token);
    QuotesAppend(lead + token, FormatParams(ps));
    QuotesAppend(lead, token);
  }

  lemma WeightedWhole(lead: string, token: string, ps: seq<Param>, q: Weight)
    requires Lead(lead) && Lead(q.lead) && Bare(token) && forall p | p in ps :: Written(p)
    requires ValueText(q.value)
    ensures Whole(lead + token + FormatParams(ps) + ";" + WeightText(q), ',')
  {
    var head := lead + token + FormatParams(ps);
    var mark := ";" + (q.lead + "q" + "=");
    PlainWhole(lead, token, ps);
    NoQuotes(mark);
    QuotesAppend(mark, q.value);
    QuotesAppend(head, mark + q.value);
    assert head + ";" + WeightText(q) == head + (mark + q.value);
  }

  /** Every readable piece reads as the entry it describes. */
  lemma PieceReads(w: Piece, order: nat)
    requires Readable(w)
    ensures Reads(PieceText(w), order, Meant(w, order))
  {
    match w.weight
    case None => PlainReads(w.lead, w.token, w.params, order);
    case Some(q) => WeightedReads(w.lead, w.token, w.params, q, order);
  }

  lemma PieceParses(w: Piece, order: nat)
    requires Readable(w)
    ensures ParseEntry(PieceText(w), order) == Meant(w, order)
  {
    PieceReads(w, order);
  }

  lemma PlainReads(lead: string, token: string, ps: seq<Param>, order: nat)
    requires Lead(lead) && Bare(token) && forall p | p in ps :: Written(p)
    ensures Reads(lead + token + FormatParams(ps), order, Entry(token, ps, QValue.Full, order))
  {
    ReadPlain(lead, token, ps, order);
    JoinParams(lead + token, ps);
    PlainWhole(lead, token, ps);
    Filled(lead + token + FormatParams(ps), lead, token, FormatParams(ps));
  }

  lemma WeightedReads(lead: string, token: string, ps: seq<Param>, q: Weight, order: nat)
    requires Lead(lead) && Lead(q.lead) && Bare(token) && forall p | p in ps :: Written(p)
    requires ValueText(q.value)
    ensures Reads(lead + token + FormatParams(ps) + ";" + WeightText(q), order, Entry(token, ps, QValue.Parse(q.value), order))
  {
    var rest := FormatParams(ps) + ";" + WeightText(q);
    WeightedParse(lead, token, ps, q, order);
    WeightedWhole(lead, token, ps, q);
    assert lead + token + FormatParams(ps) + ";" + WeightText(q) == lead + token + rest;
    Filled(lead + token + rest, lead, token, rest);
  }

  lemma WeightedParse(lead: string, token: string, ps: seq<Param>, q: Weight, order: nat)
    requires Lead(lead) && Lead(q.lead) && Bare(token) && forall p | p in ps :: Written(p)
    requires ValueText(q.value)
    ensures ParseEntry(lead + token + FormatParams(ps) + ";" + WeightText(q), order) == Entry(token, ps, QValue.Parse(q.value), order)
  {
    ReadWeighted(lead, token, ps, q.lead, q.value, order);
    WeightedJoin(lead + token, ps, WeightText(q));
  }

  function PieceTexts(ws: seq<Piece>): (r: seq<string>)
    ensures |r| == |ws|
  {
    if ws == [] then [] else [PieceText(ws[0])] + PieceTexts(ws[1..])
  }

  lemma {:induction false} PieceTextsSnoc(ws: seq<Piece>, w: Piece)
    ensures PieceTexts(ws + [w]) == PieceTexts(ws) + [PieceText(w)]
    decreases |ws|
  {
    if ws != [] {
      assert (ws + [w])[1..] == ws[1..] + [w];
      PieceTextsSnoc(ws[1..], w);
    }
  }

  /** A header of several pieces is the header of all but the last, a comma and the last piece's text. */
  lemma PiecesSnoc(ws: seq<Piece>, w: Piece)
    requires ws != []
    ensures Join(PieceTexts(ws + [w]), ',') == Join(PieceTexts(ws), ',') + "," + PieceText(w)
  {
    PieceTextsSnoc(ws, w);
    JoinSnoc(PieceTexts(ws), PieceText(w), ',');
  }

  /** The entries the pieces describe, numbered upwards from `from`. */
  function MeantFrom(ws: seq<Piece>, from: nat): (es: seq<Entry>)
    ensures |es| == |ws|
  {
    if ws == [] then [] else [Meant(ws[0], from)] + MeantFrom(ws[1..], from + 1)
  }

  /** The entry at each position is the one its piece describes, numbered from `from`. */
  lemma {:induction false} MeantAt(ws: seq<Piece>, from: nat)
    ensures forall k | 0 <= k < |ws| :: MeantFrom(ws, from)[k] == Meant(ws[k], from + k)
    decreases |ws|
  {
    if ws != [] {
      MeantAt(ws[1..], from + 1);
    }
  }

  /** Readable pieces are kept whole and non-blank by the comma splitter and the blank filter. */
  lemma {:induction false} PiecesKept(ws: seq<Piece>)
    requires forall w | w in ws :: Readable(w)
    ensures forall k | 0 <= k < |ws| :: Whole(PieceTexts(ws)[k], ',') && Trim(PieceTexts(ws)[k]) != []
    decreases |ws|
  {
    if ws != [] {
      var texts := PieceTexts(ws);
      assert ws[0] in ws;
      assert forall w | w in ws[1..] :: w in ws;
      PieceReads(ws[0], 0);
      PiecesKept(ws[1..]);
      forall k | 0 <= k < |ws| ensures Whole(texts[k], ',') && Trim(texts[k]) != [] {
        if k > 0 {
          assert texts[k] == PieceTexts(ws[1..])[k - 1];
        }
      }
    }
  }

  lemma ReadableSplit(ws: seq<Piece>)
    requires ws != [] && forall w | w in ws :: Readable(w)
    ensures Readable(ws[0]) && forall w | w in ws[1..] :: Readable(w)
  {
    assert ws[0] in ws;
    assert forall w | w in ws[1..] :: w in ws;
  }

  /** Readable pieces, numbered from `from`, read as the entries they describe. */
  lemma {:induction false} PiecesRead(ws: seq<Piece>, from: nat)
    requires forall w | w in ws :: Readable(w)
    ensures NumberFrom(PieceTexts(ws), from) == MeantFrom(ws, from)
    decreases |ws|
  {
    if ws != [] {
      ReadableSplit(ws);
      PieceParses(ws[0], from);
      PiecesRead(ws[1..], from + 1);
      NumberFromCons(PieceText(ws[0]), PieceTexts(ws[1..]), from);
      calc {
        NumberFrom(PieceTexts(ws), from);
        NumberFrom([PieceText(ws[0])] + PieceTexts(ws[1..]), from);
        [ParseEntry(PieceText(ws[0]), from)] + NumberFrom(PieceTexts(ws[1..]), from + 1);
        [Meant(ws[0], from)] + MeantFrom(ws[1..], from + 1);
        MeantFrom(ws, from);
      }
    }
  }

  /** A header value spelt as readable pieces reads as the entries those pieces describe. */
  lemma HeaderIs(ws: seq<Piece>, s: string, es: seq<Entry>)
    requires ws != [] && forall w | w in ws :: Readable(w)
    requires Join(PieceTexts(ws), ',') == s && MeantFrom(ws, 0) == es
    ensures ParseHeader(Some(s)) == es
  {
    HeaderReads(ws);
  }

  /** A header of readable pieces joined by commas reads as the entries they describe. */
  lemma HeaderReads(ws: seq<Piece>)
    requires ws != [] && forall w | w in ws :: Readable(w)
    ensures ParseHeader(Some(Join(PieceTexts(ws), ','))) == MeantFrom(ws, 0)
  {
    PiecesKept(ws);
    PiecesRead(ws, 0);
    ParseJoined(PieceTexts(ws));
  }
}
