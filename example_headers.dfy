/**
  The header values of the worked examples read by the parser: each element is
  described as a `Piece`, each piece is shown `Readable` with its text, and each
  header value is shown to read as the entries its pieces describe.
*/
module ExampleHeaders {
  import opened Wrappers
  import opened Text
  import QValue
  import opened Entries
  import opened HeaderTexts
  import HeaderLiterals

  /** The quoted parameter of the examples holds two quotes, so it is read as written. */
  lemma JoshWritten()
    ensures Written(Param("josh", Some("\"hello\"")))
  {
    var n, v := "josh", "\"hello\"";
    assert forall i | 0 <= i < |n| :: n[i] != ',' && n[i] != ';' && n[i] != '"' && n[i] != '=';
    assert forall i | 0 <= i < |v| :: v[i] != ',' && v[i] != ';';
    assert Quotes(v) == 2;
  }

  const Html := Piece([], "text/html", [], None)
  const HtmlLow := Piece([], "text/html", [], Some(Weight(" ", "0.2")))
  const HtmlLevel := Piece([], "text/html", [Param("level", Some("1"))], None)
  const HtmlJosh := Piece([], "text/html", [Param("josh", Some("\"hello\""))], Some(Weight([], "0.1")))
  const HtmlJoshSpaced := Piece([], "text/html", [Param("josh", Some("\"hello\""))], Some(Weight(" ", "0.1")))
  const SpacedXmlLevel := Piece(" ", "text/xml", [Param("level", Some("1"))], None)
  const SpacedText := Piece(" ", "text/*", [], None)
  const AudioLow := Piece([], "audio/*", [], Some(Weight(" ", "0.2")))
  const SpacedBasic := Piece(" ", "audio/basic", [], None)
  const PlainHalf := Piece([], "text/plain", [], Some(Weight(" ", "0.5")))
  const SpacedHtml := Piece(" ", "text/html", [], None)
  const SpacedDvi := Piece(" ", "text/x-dvi", [], Some(Weight(" ", "0.8")))
  const SpacedXc := Piece(" ", "text/x-c", [], None)
  const TextAll := Piece([], "text/*", [], None)
  const SpacedHtmlLevel := Piece(" ", "text/html", [Param("level", Some("1"))], None)
  const SpacedAll := Piece(" ", "*/*", [], None)
  const Xhtml := Piece([], "application/xhtml+xml", [], None)
  const XmlHigh := Piece([], "application/xml", [], Some(Weight([], "0.9")))
  const AllHigh := Piece([], "*/*", [], Some(Weight([], "0.8")))
  const Json := Piece([], "application/json", [], None)
  const Latin1Upper := Piece([], "ISO-8859-1", [], None)
  const Latin1UpperLow := Piece([], "ISO-8859-1", [], Some(Weight(" ", "0.2")))
  const Utf8Upper := Piece([], "UTF-8", [], None)
  const Iso5 := Piece([], "iso-8859-5", [], None)
  const SpacedUnicodeHigh := Piece(" ", "unicode-1-1", [], Some(Weight([], "0.8")))
  const Any := Piece([], "*", [], None)
  const UnicodeHigh := Piece([], "unicode-1-1", [], Some(Weight([], "0.8")))
  const Gzip := Piece([], "gzip", [], None)
  const Compress := Piece([], "compress", [], None)
  const SpacedGzip := Piece(" ", "gzip", [], None)
  const CompressHalf := Piece([], "compress", [], Some(Weight([], "0.5")))
  const SpacedGzipFull := Piece(" ", "gzip", [], Some(Weight([], "1.0")))
  const GzipFull := Piece([], "gzip", [], Some(Weight([], "1.0")))
  const SpacedIdentityHalf := Piece(" ", "identity", [], Some(Weight(" ", "0.5")))
  const SpacedDeflateNone := Piece(" ", "deflate", [], Some(Weight([], "0")))
  const AnyNone := Piece([], "*", [], Some(Weight([], "0")))
  const SpacedAnyNone := Piece(" ", "*", [], Some(Weight([], "0")))

  lemma HtmlBare()
    ensures Bare(Html.token)
  {
    var t := Html.token;
    assert forall i | 0 <= i < |t| :: t[i] != ',' && t[i] != ';' && t[i] != '"';
  }

  lemma HtmlReadable()
    ensures Readable(Html)
  {
    HtmlBare();
  }

  lemma HtmlText()
    ensures PieceText(Html) == "text/html"
  {
  }

  lemma HtmlLowBare()
    ensures Bare(HtmlLow.token)
  {
    var t := HtmlLow.token;
    assert forall i | 0 <= i < |t| :: t[i] != ',' && t[i] != ';' && t[i] != '"';
  }

  lemma HtmlLowReadable()
    ensures Readable(HtmlLow)
  {
    HtmlLowBare();
  }

  lemma HtmlLowText()
    ensures PieceText(HtmlLow) == "text/html; q=0.2"
  {
  }

  lemma HtmlLevelBare()
    ensures Bare(HtmlLevel.token)
  {
    var t := HtmlLevel.token;
    assert forall i | 0 <= i < |t| :: t[i] != ',' && t[i] != ';' && t[i] != '"';
  }

  lemma HtmlLevelReadable()
    ensures Readable(HtmlLevel)
  {
    HtmlLevelBare();
  }

  lemma HtmlLevelText()
    ensures PieceText(HtmlLevel) == "text/html;level=1"
  {
  }

  lemma HtmlJoshBare()
    ensures Bare(HtmlJosh.token)
  {
    var t := HtmlJosh.token;
    assert forall i | 0 <= i < |t| :: t[i] != ',' && t[i] != ';' && t[i] != '"';
  }

  lemma HtmlJoshReadable()
    ensures Readable(HtmlJosh)
  {
    HtmlJoshBare();
    JoshWritten();
  }

  lemma HtmlJoshText()
    ensures PieceText(HtmlJosh) == "text/html;josh=\"hello\";q=0.1"
  {
  }

  lemma HtmlJoshSpacedBare()
    ensures Bare(HtmlJoshSpaced.token)
  {
    var t := HtmlJoshSpaced.token;
    assert forall i | 0 <= i < |t| :: t[i] != ',' && t[i] != ';' && t[i] != '"';
  }

  lemma HtmlJoshSpacedReadable()
    ensures Readable(HtmlJoshSpaced)
  {
    HtmlJoshSpacedBare();
    JoshWritten();
  }

  lemma HtmlJoshSpacedText()
    ensures PieceText(HtmlJoshSpaced) == "text/html;josh=\"hello\"; q=0.1"
  {
  }

  lemma SpacedXmlLevelBare()
    ensures Bare(SpacedXmlLevel.token)
  {
    var t := SpacedXmlLevel.token;
    assert forall i | 0 <= i < |t| :: t[i] != ',' && t[i] != ';' && t[i] != '"';
  }

  lemma SpacedXmlLevelReadable()
    ensures Readable(SpacedXmlLevel)
  {
    SpacedXmlLevelBare();
  }

  lemma SpacedXmlLevelText()
    ensures PieceText(SpacedXmlLevel) == " text/xml;level=1"
  {
  }

  lemma SpacedTextBare()
    ensures Bare(SpacedText.token)
  {
    var t := SpacedText.token;
    assert forall i | 0 <= i < |t| :: t[i] != ',' && t[i] != ';' && t[i] != '"';
  }

  lemma SpacedTextReadable()
    ensures Readable(SpacedText)
  {
    SpacedTextBare();
  }

  lemma SpacedTextText()
    ensures PieceText(SpacedText) == " text/*"
  {
  }

  lemma AudioLowBare()
    ensures Bare(AudioLow.token)
  {
    var t := AudioLow.token;
    assert forall i | 0 <= i < |t| :: t[i] != ',' && t[i] != ';' && t[i] != '"';
  }

  lemma AudioLowReadable()
    ensures Readable(AudioLow)
  {
    AudioLowBare();
  }

  lemma AudioLowText()
    ensures PieceText(AudioLow) == "audio/*; q=0.2"
  {
  }

  lemma SpacedBasicBare()
    ensures Bare(SpacedBasic.token)
  {
    var t := SpacedBasic.token;
    assert forall i | 0 <= i < |t| :: t[i] != ',' && t[i] != ';' && t[i] != '"';
  }

  lemma SpacedBasicReadable()
    ensures Readable(SpacedBasic)
  {
    SpacedBasicBare();
  }

  lemma SpacedBasicText()
    ensures PieceText(SpacedBasic) == " audio/basic"
  {
  }

  lemma PlainHalfBare()
    ensures Bare(PlainHalf.token)
  {
    var t := PlainHalf.token;
    assert forall i | 0 <= i < |t| :: t[i] != ',' && t[i] != ';' && t[i] != '"';
  }

  lemma PlainHalfReadable()
    ensures Readable(PlainHalf)
  {
    PlainHalfBare();
  }

  lemma PlainHalfText()
    ensures PieceText(PlainHalf) == "text/plain; q=0.5"
  {
  }

  lemma SpacedHtmlBare()
    ensures Bare(SpacedHtml.token)
  {
    var t := SpacedHtml.token;
    assert forall i | 0 <= i < |t| :: t[i] != ',' && t[i] != ';' && t[i] != '"';
  }

  lemma SpacedHtmlReadable()
    ensures Readable(SpacedHtml)
  {
    SpacedHtmlBare();
  }

  lemma SpacedHtmlText()
    ensures PieceText(SpacedHtml) == " text/html"
  {
  }

  lemma SpacedDviBare()
    ensures Bare(SpacedDvi.token)
  {
    var t := SpacedDvi.token;
    assert forall i | 0 <= i < |t| :: t[i] != ',' && t[i] != ';' && t[i] != '"';
  }

  lemma SpacedDviReadable()
    ensures Readable(SpacedDvi)
  {
    SpacedDviBare();
  }

  lemma SpacedDviText()
    ensures PieceText(SpacedDvi) == " text/x-dvi; q=0.8"
  {
  }

  lemma SpacedXcBare()
    ensures Bare(SpacedXc.token)
  {
    var t := SpacedXc.token;
    assert forall i | 0 <= i < |t| :: t[i] != ',' && t[i] != ';' && t[i] != '"';
  }

  lemma SpacedXcReadable()
    ensures Readable(SpacedXc)
  {
    SpacedXcBare();
  }

  lemma SpacedXcText()
    ensures PieceText(SpacedXc) == " text/x-c"
  {
  }

  lemma TextAllBare()
    ensures Bare(TextAll.token)
  {
    var t := TextAll.token;
    assert forall i | 0 <= i < |t| :: t[i] != ',' && t[i] != ';' && t[i] != '"';
  }

  lemma TextAllReadable()
    ensures Readable(TextAll)
  {
    TextAllBare();
  }

  lemma TextAllText()
    ensures PieceText(TextAll) == "text/*"
  {
  }

  lemma SpacedHtmlLevelBare()
    ensures Bare(SpacedHtmlLevel.token)
  {
    var t := SpacedHtmlLevel.token;
    assert forall i | 0 <= i < |t| :: t[i] != ',' && t[i] != ';' && t[i] != '"';
  }

  lemma SpacedHtmlLevelReadable()
    ensures Readable(SpacedHtmlLevel)
  {
    SpacedHtmlLevelBare();
  }

  lemma SpacedHtmlLevelText()
    ensures PieceText(SpacedHtmlLevel) == " text/html;level=1"
  {
  }

  lemma SpacedAllBare()
    ensures Bare(SpacedAll.token)
  {
    var t := SpacedAll.token;
    assert forall i | 0 <= i < |t| :: t[i] != ',' && t[i] != ';' && t[i] != '"';
  }

  lemma SpacedAllReadable()
    ensures Readable(SpacedAll)
  {
    SpacedAllBare();
  }

  lemma SpacedAllText()
    ensures PieceText(SpacedAll) == " */*"
  {
  }

  lemma XhtmlBare()
    ensures Bare(Xhtml.token)
  {
    var t := Xhtml.token;
    assert forall i | 0 <= i < |t| :: t[i] != ',' && t[i] != ';' && t[i] != '"';
  }

  lemma XhtmlReadable()
    ensures Readable(Xhtml)
  {
    XhtmlBare();
  }

  lemma XhtmlText()
    ensures PieceText(Xhtml) == "application/xhtml+xml"
  {
  }

  lemma XmlHighBare()
    ensures Bare(XmlHigh.token)
  {
    var t := XmlHigh.token;
    assert forall i | 0 <= i < |t| :: t[i] != ',' && t[i] != ';' && t[i] != '"';
  }

  lemma XmlHighReadable()
    ensures Readable(XmlHigh)
  {
    XmlHighBare();
  }

  lemma XmlHighText()
    ensures PieceText(XmlHigh) == "application/xml;q=0.9"
  {
  }

  lemma AllHighBare()
    ensures Bare(AllHigh.token)
  {
    var t := AllHigh.token;
    assert forall i | 0 <= i < |t| :: t[i] != ',' && t[i] != ';' && t[i] != '"';
  }

  lemma AllHighReadable()
    ensures Readable(AllHigh)
  {
    AllHighBare();
  }

  lemma AllHighText()
    ensures PieceText(AllHigh) == "*/*;q=0.8"
  {
  }

  lemma JsonBare()
    ensures Bare(Json.token)
  {
    var t := Json.token;
    assert forall i | 0 <= i < |t| :: t[i] != ',' && t[i] != ';' && t[i] != '"';
  }

  lemma JsonReadable()
    ensures Readable(Json)
  {
    JsonBare();
  }

  lemma JsonText()
    ensures PieceText(Json) == "application/json"
  {
  }

  lemma Latin1UpperBare()
    ensures Bare(Latin1Upper.token)
  {
    var t := Latin1Upper.token;
    assert forall i | 0 <= i < |t| :: t[i] != ',' && t[i] != ';' && t[i] != '"';
  }

  lemma Latin1UpperReadable()
    ensures Readable(Latin1Upper)
  {
    Latin1UpperBare();
  }

  lemma Latin1UpperText()
    ensures PieceText(Latin1Upper) == "ISO-8859-1"
  {
  }

  lemma Latin1UpperLowBare()
    ensures Bare(Latin1UpperLow.token)
  {
    var t := Latin1UpperLow.token;
    assert forall i | 0 <= i < |t| :: t[i] != ',' && t[i] != ';' && t[i] != '"';
  }

  lemma Latin1UpperLowReadable()
    ensures Readable(Latin1UpperLow)
  {
    Latin1UpperLowBare();
  }

  lemma Latin1UpperLowText()
    ensures PieceText(Latin1UpperLow) == "ISO-8859-1; q=0.2"
  {
  }

  lemma Utf8UpperBare()
    ensures Bare(Utf8Upper.token)
  {
    var t := Utf8Upper.token;
    assert forall i | 0 <= i < |t| :: t[i] != ',' && t[i] != ';' && t[i] != '"';
  }

  lemma Utf8UpperReadable()
    ensures Readable(Utf8Upper)
  {
    Utf8UpperBare();
  }

  lemma Utf8UpperText()
    ensures PieceText(Utf8Upper) == "UTF-8"
  {
  }

  lemma Iso5Bare()
    ensures Bare(Iso5.token)
  {
    var t := Iso5.token;
    assert forall i | 0 <= i < |t| :: t[i] != ',' && t[i] != ';' && t[i] != '"';
  }

  lemma Iso5Readable()
    ensures Readable(Iso5)
  {
    Iso5Bare();
  }

  lemma Iso5Text()
    ensures PieceText(Iso5) == "iso-8859-5"
  {
  }

  lemma SpacedUnicodeHighBare()
    ensures Bare(SpacedUnicodeHigh.token)
  {
    var t := SpacedUnicodeHigh.token;
    assert forall i | 0 <= i < |t| :: t[i] != ',' && t[i] != ';' && t[i] != '"';
  }

  lemma SpacedUnicodeHighReadable()
    ensures Readable(SpacedUnicodeHigh)
  {
    SpacedUnicodeHighBare();
  }

  lemma SpacedUnicodeHighText()
    ensures PieceText(SpacedUnicodeHigh) == " unicode-1-1;q=0.8"
  {
  }

  lemma AnyBare()
    ensures Bare(Any.token)
  {
    var t := Any.token;
    assert forall i | 0 <= i < |t| :: t[i] != ',' && t[i] != ';' && t[i] != '"';
  }

  lemma AnyReadable()
    ensures Readable(Any)
  {
    AnyBare();
  }

  lemma AnyText()
    ensures PieceText(Any) == "*"
  {
  }

  lemma UnicodeHighBare()
    ensures Bare(UnicodeHigh.token)
  {
    var t := UnicodeHigh.token;
    assert forall i | 0 <= i < |t| :: t[i] != ',' && t[i] != ';' && t[i] != '"';
  }

  lemma UnicodeHighReadable()
    ensures Readable(UnicodeHigh)
  {
    UnicodeHighBare();
  }

  lemma UnicodeHighText()
    ensures PieceText(UnicodeHigh) == "unicode-1-1;q=0.8"
  {
  }

  lemma GzipBare()
    ensures Bare(Gzip.token)
  {
    var t := Gzip.token;
    assert forall i | 0 <= i < |t| :: t[i] != ',' && t[i] != ';' && t[i] != '"';
  }

  lemma GzipReadable()
    ensures Readable(Gzip)
  {
    GzipBare();
  }

  lemma GzipText()
    ensures PieceText(Gzip) == "gzip"
  {
  }

  lemma CompressBare()
    ensures Bare(Compress.token)
  {
    var t := Compress.token;
    assert forall i | 0 <= i < |t| :: t[i] != ',' && t[i] != ';' && t[i] != '"';
  }

  lemma CompressReadable()
    ensures Readable(Compress)
  {
    CompressBare();
  }

  lemma CompressText()
    ensures PieceText(Compress) == "compress"
  {
  }

  lemma SpacedGzipBare()
    ensures Bare(SpacedGzip.token)
  {
    var t := SpacedGzip.token;
    assert forall i | 0 <= i < |t| :: t[i] != ',' && t[i] != ';' && t[i] != '"';
  }

  lemma SpacedGzipReadable()
    ensures Readable(SpacedGzip)
  {
    SpacedGzipBare();
  }

  lemma SpacedGzipText()
    ensures PieceText(SpacedGzip) == " gzip"
  {
  }

  lemma CompressHalfBare()
    ensures Bare(CompressHalf.token)
  {
    var t := CompressHalf.token;
    assert forall i | 0 <= i < |t| :: t[i] != ',' && t[i] != ';' && t[i] != '"';
  }

  lemma CompressHalfReadable()
    ensures Readable(CompressHalf)
  {
    CompressHalfBare();
  }

  lemma CompressHalfText()
    ensures PieceText(CompressHalf) == "compress;q=0.5"
  {
  }

  lemma SpacedGzipFullBare()
    ensures Bare(SpacedGzipFull.token)
  {
    var t := SpacedGzipFull.token;
    assert forall i | 0 <= i < |t| :: t[i] != ',' && t[i] != ';' && t[i] != '"';
  }

  lemma SpacedGzipFullReadable()
    ensures Readable(SpacedGzipFull)
  {
    SpacedGzipFullBare();
  }

  lemma SpacedGzipFullText()
    ensures PieceText(SpacedGzipFull) == " gzip;q=1.0"
  {
  }

  lemma GzipFullBare()
    ensures Bare(GzipFull.token)
  {
    var t := GzipFull.token;
    assert forall i | 0 <= i < |t| :: t[i] != ',' && t[i] != ';' && t[i] != '"';
  }

  lemma GzipFullReadable()
    ensures Readable(GzipFull)
  {
    GzipFullBare();
  }

  lemma GzipFullText()
    ensures PieceText(GzipFull) == "gzip;q=1.0"
  {
  }

  lemma SpacedIdentityHalfBare()
    ensures Bare(SpacedIdentityHalf.token)
  {
    var t := SpacedIdentityHalf.token;
    assert forall i | 0 <= i < |t| :: t[i] != ',' && t[i] != ';' && t[i] != '"';
  }

  lemma SpacedIdentityHalfReadable()
    ensures Readable(SpacedIdentityHalf)
  {
    SpacedIdentityHalfBare();
  }

  lemma SpacedIdentityHalfText()
    ensures PieceText(SpacedIdentityHalf) == " identity; q=0.5"
  {
  }

  lemma SpacedDeflateNoneBare()
    ensures Bare(SpacedDeflateNone.token)
  {
    var t := SpacedDeflateNone.token;
    assert forall i | 0 <= i < |t| :: t[i] != ',' && t[i] != ';' && t[i] != '"';
  }

  lemma SpacedDeflateNoneReadable()
    ensures Readable(SpacedDeflateNone)
  {
    SpacedDeflateNoneBare();
  }

  lemma SpacedDeflateNoneText()
    ensures PieceText(SpacedDeflateNone) == " deflate;q=0"
  {
  }

  lemma AnyNoneBare()
    ensures Bare(AnyNone.token)
  {
    var t := AnyNone.token;
    assert forall i | 0 <= i < |t| :: t[i] != ',' && t[i] != ';' && t[i] != '"';
  }

  lemma AnyNoneReadable()
    ensures Readable(AnyNone)
  {
    AnyNoneBare();
  }

  lemma AnyNoneText()
    ensures PieceText(AnyNone) == "*;q=0"
  {
  }

  lemma SpacedAnyNoneBare()
    ensures Bare(SpacedAnyNone.token)
  {
    var t := SpacedAnyNone.token;
    assert forall i | 0 <= i < |t| :: t[i] != ',' && t[i] != ';' && t[i] != '"';
  }

  lemma SpacedAnyNoneReadable()
    ensures Readable(SpacedAnyNone)
  {
    SpacedAnyNoneBare();
  }

  lemma SpacedAnyNoneText()
    ensures PieceText(SpacedAnyNone) == " *;q=0"
  {
  }

  lemma HtmlHeader()
    ensures ParseHeader(Some("text/html")) == [Entry("text/html", [], 1000, 0)]
  {
    var ws := [Html];
    HtmlReadable();
    HtmlText();
    HeaderReads(ws);
  }

  lemma HtmlLowHeader()
    ensures ParseHeader(Some("text/html; q=0.2")) == [Entry("text/html", [], 200, 0)]
  {
    var ws := [HtmlLow];
    HtmlLowReadable();
    HtmlLowText();
    QValue.ExampleQualities();
    HeaderReads(ws);
  }

  lemma HtmlLevelHeader()
    ensures ParseHeader(Some("text/html;level=1")) == [Entry("text/html", [Param("level", Some("1"))], 1000, 0)]
  {
    var ws := [HtmlLevel];
    HtmlLevelReadable();
    HtmlLevelText();
    HeaderReads(ws);
  }

  lemma HtmlJoshHeader()
    ensures ParseHeader(Some("text/html;josh=\"hello\";q=0.1")) == [Entry("text/html", [Param("josh", Some("\"hello\""))], 100, 0)]
  {
    var ws := [HtmlJosh];
    HtmlJoshReadable();
    HtmlJoshText();
    QValue.ExampleQualities();
    HeaderReads(ws);
  }

  lemma HtmlJoshSpacedHeader()
    ensures ParseHeader(Some("text/html;josh=\"hello\"; q=0.1")) == [Entry("text/html", [Param("josh", Some("\"hello\""))], 100, 0)]
  {
    var ws := [HtmlJoshSpaced];
    HtmlJoshSpacedReadable();
    HtmlJoshSpacedText();
    QValue.ExampleQualities();
    HeaderReads(ws);
  }

  const TextPieces := [Html, SpacedXmlLevel, SpacedText]

  lemma TextPiecesJoined()
    ensures Join(PieceTexts(TextPieces), ',') == "text/html, text/xml;level=1, text/*"
  {
    var ws := TextPieces;
    HtmlText();
    SpacedXmlLevelText();
    SpacedTextText();
    assert ws[..1] == [ws[0]];
    assert Join(PieceTexts(ws[..1]), ',') == "text/html";
    HeaderLiterals.TextSplit1();
    PiecesSnoc(ws[..1], ws[1]);
    assert ws[..1] + [ws[1]] == ws[..2];
    assert Join(PieceTexts(ws[..2]), ',') == "text/html, text/xml;level=1";
    HeaderLiterals.TextSplit2();
    PiecesSnoc(ws[..2], ws[2]);
    assert ws[..2] + [ws[2]] == ws[..3];
    assert Join(PieceTexts(ws[..3]), ',') == "text/html, text/xml;level=1, text/*";
    assert ws[..3] == ws;
  }

  lemma TextPiecesReadable()
    ensures forall w | w in TextPieces :: Readable(w)
  {
    HtmlReadable();
    SpacedXmlLevelReadable();
    SpacedTextReadable();
  }

  lemma TextPiecesMeant()
    ensures MeantFrom(TextPieces, 0) == [Entry("text/html", [], 1000, 0), Entry("text/xml", [Param("level", Some("1"))], 1000, 1), Entry("text/*", [], 1000, 2)]
  {
    MeantAt(TextPieces, 0);
  }

  lemma TextHeader()
    ensures ParseHeader(Some("text/html, text/xml;level=1, text/*")) == [Entry("text/html", [], 1000, 0), Entry("text/xml", [Param("level", Some("1"))], 1000, 1), Entry("text/*", [], 1000, 2)]
  {
    TextPiecesJoined();
    TextPiecesReadable();
    TextPiecesMeant();
    HeaderIs(TextPieces, "text/html, text/xml;level=1, text/*", [Entry("text/html", [], 1000, 0), Entry("text/xml", [Param("level", Some("1"))], 1000, 1), Entry("text/*", [], 1000, 2)]);
  }

  const AudioPieces := [AudioLow, SpacedBasic]

  lemma AudioPiecesJoined()
    ensures Join(PieceTexts(AudioPieces), ',') == "audio/*; q=0.2, audio/basic"
  {
    var ws := AudioPieces;
    AudioLowText();
    SpacedBasicText();
    assert ws[..1] == [ws[0]];
    assert Join(PieceTexts(ws[..1]), ',') == "audio/*; q=0.2";
    HeaderLiterals.AudioSplit1();
    PiecesSnoc(ws[..1], ws[1]);
    assert ws[..1] + [ws[1]] == ws[..2];
    assert Join(PieceTexts(ws[..2]), ',') == "audio/*; q=0.2, audio/basic";
    assert ws[..2] == ws;
  }

  lemma AudioPiecesReadable()
    ensures forall w | w in AudioPieces :: Readable(w)
  {
    AudioLowReadable();
    SpacedBasicReadable();
  }

  lemma AudioPiecesMeant()
    ensures MeantFrom(AudioPieces, 0) == [Entry("audio/*", [], 200, 0), Entry("audio/basic", [], 1000, 1)]
  {
    QValue.ExampleQualities();
    MeantAt(AudioPieces, 0);
  }

  lemma AudioHeader()
    ensures ParseHeader(Some("audio/*; q=0.2, audio/basic")) == [Entry("audio/*", [], 200, 0), Entry("audio/basic", [], 1000, 1)]
  {
    AudioPiecesJoined();
    AudioPiecesReadable();
    AudioPiecesMeant();
    HeaderIs(AudioPieces, "audio/*; q=0.2, audio/basic", [Entry("audio/*", [], 200, 0), Entry("audio/basic", [], 1000, 1)]);
  }

  const PlainPieces := [PlainHalf, SpacedHtml, SpacedDvi, SpacedXc]

  lemma PlainPiecesJoined()
    ensures Join(PieceTexts(PlainPieces), ',') == "text/plain; q=0.5, text/html, text/x-dvi; q=0.8, text/x-c"
  {
    var ws := PlainPieces;
    PlainHalfText();
    SpacedHtmlText();
    SpacedDviText();
    SpacedXcText();
    assert ws[..1] == [ws[0]];
    assert Join(PieceTexts(ws[..1]), ',') == "text/plain; q=0.5";
    HeaderLiterals.PlainSplit1();
    PiecesSnoc(ws[..1], ws[1]);
    assert ws[..1] + [ws[1]] == ws[..2];
    assert Join(PieceTexts(ws[..2]), ',') == "text/plain; q=0.5, text/html";
    HeaderLiterals.PlainSplit2();
    PiecesSnoc(ws[..2], ws[2]);
    assert ws[..2] + [ws[2]] == ws[..3];
    assert Join(PieceTexts(ws[..3]), ',') == "text/plain; q=0.5, text/html, text/x-dvi; q=0.8";
    HeaderLiterals.PlainSplit3();
    PiecesSnoc(ws[..3], ws[3]);
    assert ws[..3] + [ws[3]] == ws[..4];
    assert Join(PieceTexts(ws[..4]), ',') == "text/plain; q=0.5, text/html, text/x-dvi; q=0.8, text/x-c";
    assert ws[..4] == ws;
  }

  lemma PlainPiecesReadable()
    ensures forall w | w in PlainPieces :: Readable(w)
  {
    PlainHalfReadable();
    SpacedHtmlReadable();
    SpacedDviReadable();
    SpacedXcReadable();
  }

  lemma PlainPiecesMeant()
    ensures MeantFrom(PlainPieces, 0) == [Entry("text/plain", [], 500, 0), Entry("text/html", [], 1000, 1), Entry("text/x-dvi", [], 800, 2), Entry("text/x-c", [], 1000, 3)]
  {
    QValue.ExampleQualities();
    MeantAt(PlainPieces, 0);
  }

  lemma PlainHeader()
    ensures ParseHeader(Some("text/plain; q=0.5, text/html, text/x-dvi; q=0.8, text/x-c")) == [Entry("text/plain", [], 500, 0), Entry("text/html", [], 1000, 1), Entry("text/x-dvi", [], 800, 2), Entry("text/x-c", [], 1000, 3)]
  {
    PlainPiecesJoined();
    PlainPiecesReadable();
    PlainPiecesMeant();
    HeaderIs(PlainPieces, "text/plain; q=0.5, text/html, text/x-dvi; q=0.8, text/x-c", [Entry("text/plain", [], 500, 0), Entry("text/html", [], 1000, 1), Entry("text/x-dvi", [], 800, 2), Entry("text/x-c", [], 1000, 3)]);
  }

  const LevelsPieces := [TextAll, SpacedHtml, SpacedHtmlLevel, SpacedAll]

  lemma LevelsPiecesJoined()
    ensures Join(PieceTexts(LevelsPieces), ',') == "text/*, text/html, text/html;level=1, */*"
  {
    var ws := LevelsPieces;
    TextAllText();
    SpacedHtmlText();
    SpacedHtmlLevelText();
    SpacedAllText();
    assert ws[..1] == [ws[0]];
    assert Join(PieceTexts(ws[..1]), ',') == "text/*";
    HeaderLiterals.LevelsSplit1();
    PiecesSnoc(ws[..1], ws[1]);
    assert ws[..1] + [ws[1]] == ws[..2];
    assert Join(PieceTexts(ws[..2]), ',') == "text/*, text/html";
    HeaderLiterals.LevelsSplit2();
    PiecesSnoc(ws[..2], ws[2]);
    assert ws[..2] + [ws[2]] == ws[..3];
    assert Join(PieceTexts(ws[..3]), ',') == "text/*, text/html, text/html;level=1";
    HeaderLiterals.LevelsSplit3();
    PiecesSnoc(ws[..3], ws[3]);
    assert ws[..3] + [ws[3]] == ws[..4];
    assert Join(PieceTexts(ws[..4]), ',') == "text/*, text/html, text/html;level=1, */*";
    assert ws[..4] == ws;
  }

  lemma LevelsPiecesReadable()
    ensures forall w | w in LevelsPieces :: Readable(w)
  {
    TextAllReadable();
    SpacedHtmlReadable();
    SpacedHtmlLevelReadable();
    SpacedAllReadable();
  }

  lemma LevelsPiecesMeant()
    ensures MeantFrom(LevelsPieces, 0) == [Entry("text/*", [], 1000, 0), Entry("text/html", [], 1000, 1), Entry("text/html", [Param("level", Some("1"))], 1000, 2), Entry("*/*", [], 1000, 3)]
  {
    MeantAt(LevelsPieces, 0);
  }

  lemma LevelsHeader()
    ensures ParseHeader(Some("text/*, text/html, text/html;level=1, */*")) == [Entry("text/*", [], 1000, 0), Entry("text/html", [], 1000, 1), Entry("text/html", [Param("level", Some("1"))], 1000, 2), Entry("*/*", [], 1000, 3)]
  {
    LevelsPiecesJoined();
    LevelsPiecesReadable();
    LevelsPiecesMeant();
    HeaderIs(LevelsPieces, "text/*, text/html, text/html;level=1, */*", [Entry("text/*", [], 1000, 0), Entry("text/html", [], 1000, 1), Entry("text/html", [Param("level", Some("1"))], 1000, 2), Entry("*/*", [], 1000, 3)]);
  }

  const BrowserPieces := [Html, Xhtml, XmlHigh, AllHigh, Json]

  lemma BrowserPiecesJoined()
    ensures Join(PieceTexts(BrowserPieces), ',') == "text/html,application/xhtml+xml,application/xml;q=0.9,*/*;q=0.8,application/json"
  {
    var ws := BrowserPieces;
    HtmlText();
    XhtmlText();
    XmlHighText();
    AllHighText();
    JsonText();
    assert ws[..1] == [ws[0]];
    assert Join(PieceTexts(ws[..1]), ',') == "text/html";
    HeaderLiterals.BrowserSplit1();
    PiecesSnoc(ws[..1], ws[1]);
    assert ws[..1] + [ws[1]] == ws[..2];
    assert Join(PieceTexts(ws[..2]), ',') == "text/html,application/xhtml+xml";
    HeaderLiterals.BrowserSplit2();
    PiecesSnoc(ws[..2], ws[2]);
    assert ws[..2] + [ws[2]] == ws[..3];
    assert Join(PieceTexts(ws[..3]), ',') == "text/html,application/xhtml+xml,application/xml;q=0.9";
    HeaderLiterals.BrowserSplit3();
    PiecesSnoc(ws[..3], ws[3]);
    assert ws[..3] + [ws[3]] == ws[..4];
    assert Join(PieceTexts(ws[..4]), ',') == "text/html,application/xhtml+xml,application/xml;q=0.9,*/*;q=0.8";
    HeaderLiterals.BrowserSplit4();
    PiecesSnoc(ws[..4], ws[4]);
    assert ws[..4] + [ws[4]] == ws[..5];
    assert Join(PieceTexts(ws[..5]), ',') == "text/html,application/xhtml+xml,application/xml;q=0.9,*/*;q=0.8,application/json";
    assert ws[..5] == ws;
  }

  lemma BrowserPiecesReadable()
    ensures forall w | w in BrowserPieces :: Readable(w)
  {
    HtmlReadable();
    XhtmlReadable();
    XmlHighReadable();
    AllHighReadable();
    JsonReadable();
  }

  lemma BrowserPiecesMeant()
    ensures MeantFrom(BrowserPieces, 0) == [Entry("text/html", [], 1000, 0), Entry("application/xhtml+xml", [], 1000, 1), Entry("application/xml", [], 900, 2), Entry("*/*", [], 800, 3), Entry("application/json", [], 1000, 4)]
  {
    QValue.ExampleQualities();
    MeantAt(BrowserPieces, 0);
  }

  lemma BrowserHeader()
    ensures ParseHeader(Some("text/html,application/xhtml+xml,application/xml;q=0.9,*/*;q=0.8,application/json")) == [Entry("text/html", [], 1000, 0), Entry("application/xhtml+xml", [], 1000, 1), Entry("application/xml", [], 900, 2), Entry("*/*", [], 800, 3), Entry("application/json", [], 1000, 4)]
  {
    BrowserPiecesJoined();
    BrowserPiecesReadable();
    BrowserPiecesMeant();
    HeaderIs(BrowserPieces, "text/html,application/xhtml+xml,application/xml;q=0.9,*/*;q=0.8,application/json", [Entry("text/html", [], 1000, 0), Entry("application/xhtml+xml", [], 1000, 1), Entry("application/xml", [], 900, 2), Entry("*/*", [], 800, 3), Entry("application/json", [], 1000, 4)]);
  }

  lemma Latin1Header()
    ensures ParseHeader(Some("ISO-8859-1")) == [Entry("ISO-8859-1", [], 1000, 0)]
  {
    var ws := [Latin1Upper];
    Latin1UpperReadable();
    Latin1UpperText();
    HeaderReads(ws);
  }

  lemma Latin1LowHeader()
    ensures ParseHeader(Some("ISO-8859-1; q=0.2")) == [Entry("ISO-8859-1", [], 200, 0)]
  {
    var ws := [Latin1UpperLow];
    Latin1UpperLowReadable();
    Latin1UpperLowText();
    QValue.ExampleQualities();
    HeaderReads(ws);
  }

  lemma Utf8Header()
    ensures ParseHeader(Some("UTF-8")) == [Entry("UTF-8", [], 1000, 0)]
  {
    var ws := [Utf8Upper];
    Utf8UpperReadable();
    Utf8UpperText();
    HeaderReads(ws);
  }

  const Iso5UnicodePieces := [Iso5, SpacedUnicodeHigh]

  lemma Iso5UnicodePiecesJoined()
    ensures Join(PieceTexts(Iso5UnicodePieces), ',') == "iso-8859-5, unicode-1-1;q=0.8"
  {
    var ws := Iso5UnicodePieces;
    Iso5Text();
    SpacedUnicodeHighText();
    assert ws[..1] == [ws[0]];
    assert Join(PieceTexts(ws[..1]), ',') == "iso-8859-5";
    HeaderLiterals.Iso5UnicodeSplit1();
    PiecesSnoc(ws[..1], ws[1]);
    assert ws[..1] + [ws[1]] == ws[..2];
    assert Join(PieceTexts(ws[..2]), ',') == "iso-8859-5, unicode-1-1;q=0.8";
    assert ws[..2] == ws;
  }

  lemma Iso5UnicodePiecesReadable()
    ensures forall w | w in Iso5UnicodePieces :: Readable(w)
  {
    Iso5Readable();
    SpacedUnicodeHighReadable();
  }

  lemma Iso5UnicodePiecesMeant()
    ensures MeantFrom(Iso5UnicodePieces, 0) == [Entry("iso-8859-5", [], 1000, 0), Entry("unicode-1-1", [], 800, 1)]
  {
    QValue.ExampleQualities();
    MeantAt(Iso5UnicodePieces, 0);
  }

  lemma Iso5UnicodeHeader()
    ensures ParseHeader(Some("iso-8859-5, unicode-1-1;q=0.8")) == [Entry("iso-8859-5", [], 1000, 0), Entry("unicode-1-1", [], 800, 1)]
  {
    Iso5UnicodePiecesJoined();
    Iso5UnicodePiecesReadable();
    Iso5UnicodePiecesMeant();
    HeaderIs(Iso5UnicodePieces, "iso-8859-5, unicode-1-1;q=0.8", [Entry("iso-8859-5", [], 1000, 0), Entry("unicode-1-1", [], 800, 1)]);
  }

  const Utf8AnyPieces := [Utf8Upper, Any]

  lemma Utf8AnyPiecesJoined()
    ensures Join(PieceTexts(Utf8AnyPieces), ',') == "UTF-8,*"
  {
    var ws := Utf8AnyPieces;
    Utf8UpperText();
    AnyText();
    assert ws[..1] == [ws[0]];
    assert Join(PieceTexts(ws[..1]), ',') == "UTF-8";
    HeaderLiterals.Utf8AnySplit1();
    PiecesSnoc(ws[..1], ws[1]);
    assert ws[..1] + [ws[1]] == ws[..2];
    assert Join(PieceTexts(ws[..2]), ',') == "UTF-8,*";
    assert ws[..2] == ws;
  }

  lemma Utf8AnyPiecesReadable()
    ensures forall w | w in Utf8AnyPieces :: Readable(w)
  {
    Utf8UpperReadable();
    AnyReadable();
  }

  lemma Utf8AnyPiecesMeant()
    ensures MeantFrom(Utf8AnyPieces, 0) == [Entry("UTF-8", [], 1000, 0), Entry("*", [], 1000, 1)]
  {
    MeantAt(Utf8AnyPieces, 0);
  }

  lemma Utf8AnyHeader()
    ensures ParseHeader(Some("UTF-8,*")) == [Entry("UTF-8", [], 1000, 0), Entry("*", [], 1000, 1)]
  {
    Utf8AnyPiecesJoined();
    Utf8AnyPiecesReadable();
    Utf8AnyPiecesMeant();
    HeaderIs(Utf8AnyPieces, "UTF-8,*", [Entry("UTF-8", [], 1000, 0), Entry("*", [], 1000, 1)]);
  }

  lemma UnicodeHeader()
    ensures ParseHeader(Some("unicode-1-1;q=0.8")) == [Entry("unicode-1-1", [], 800, 0)]
  {
    var ws := [UnicodeHigh];
    UnicodeHighReadable();
    UnicodeHighText();
    QValue.ExampleQualities();
    HeaderReads(ws);
  }

  lemma AnyHeader()
    ensures ParseHeader(Some("*")) == [Entry("*", [], 1000, 0)]
  {
    var ws := [Any];
    AnyReadable();
    AnyText();
    HeaderReads(ws);
  }

  lemma GzipHeader()
    ensures ParseHeader(Some("gzip")) == [Entry("gzip", [], 1000, 0)]
  {
    var ws := [Gzip];
    GzipReadable();
    GzipText();
    HeaderReads(ws);
  }

  const CompressGzipPieces := [Compress, SpacedGzip]

  lemma CompressGzipPiecesJoined()
    ensures Join(PieceTexts(CompressGzipPieces), ',') == "compress, gzip"
  {
    var ws := CompressGzipPieces;
    CompressText();
    SpacedGzipText();
    assert ws[..1] == [ws[0]];
    assert Join(PieceTexts(ws[..1]), ',') == "compress";
    HeaderLiterals.CompressGzipSplit1();
    PiecesSnoc(ws[..1], ws[1]);
    assert ws[..1] + [ws[1]] == ws[..2];
    assert Join(PieceTexts(ws[..2]), ',') == "compress, gzip";
    assert ws[..2] == ws;
  }

  lemma CompressGzipPiecesReadable()
    ensures forall w | w in CompressGzipPieces :: Readable(w)
  {
    CompressReadable();
    SpacedGzipReadable();
  }

  lemma CompressGzipPiecesMeant()
    ensures MeantFrom(CompressGzipPieces, 0) == [Entry("compress", [], 1000, 0), Entry("gzip", [], 1000, 1)]
  {
    MeantAt(CompressGzipPieces, 0);
  }

  lemma CompressGzipHeader()
    ensures ParseHeader(Some("compress, gzip")) == [Entry("compress", [], 1000, 0), Entry("gzip", [], 1000, 1)]
  {
    CompressGzipPiecesJoined();
    CompressGzipPiecesReadable();
    CompressGzipPiecesMeant();
    HeaderIs(CompressGzipPieces, "compress, gzip", [Entry("compress", [], 1000, 0), Entry("gzip", [], 1000, 1)]);
  }

  const WeightedPieces := [CompressHalf, SpacedGzipFull]

  lemma WeightedPiecesJoined()
    ensures Join(PieceTexts(WeightedPieces), ',') == "compress;q=0.5, gzip;q=1.0"
  {
    var ws := WeightedPieces;
    CompressHalfText();
    SpacedGzipFullText();
    assert ws[..1] == [ws[0]];
    assert Join(PieceTexts(ws[..1]), ',') == "compress;q=0.5";
    HeaderLiterals.WeightedSplit1();
    PiecesSnoc(ws[..1], ws[1]);
    assert ws[..1] + [ws[1]] == ws[..2];
    assert Join(PieceTexts(ws[..2]), ',') == "compress;q=0.5, gzip;q=1.0";
    assert ws[..2] == ws;
  }

  lemma WeightedPiecesReadable()
    ensures forall w | w in WeightedPieces :: Readable(w)
  {
    CompressHalfReadable();
    SpacedGzipFullReadable();
  }

  lemma WeightedPiecesMeant()
    ensures MeantFrom(WeightedPieces, 0) == [Entry("compress", [], 500, 0), Entry("gzip", [], 1000, 1)]
  {
    QValue.ExampleQualities();
    MeantAt(WeightedPieces, 0);
  }

  lemma WeightedHeader()
    ensures ParseHeader(Some("compress;q=0.5, gzip;q=1.0")) == [Entry("compress", [], 500, 0), Entry("gzip", [], 1000, 1)]
  {
    WeightedPiecesJoined();
    WeightedPiecesReadable();
    WeightedPiecesMeant();
    HeaderIs(WeightedPieces, "compress;q=0.5, gzip;q=1.0", [Entry("compress", [], 500, 0), Entry("gzip", [], 1000, 1)]);
  }

  const DeflatePieces := [GzipFull, SpacedIdentityHalf, SpacedDeflateNone]

  lemma DeflatePiecesJoined()
    ensures Join(PieceTexts(DeflatePieces), ',') == "gzip;q=1.0, identity; q=0.5, deflate;q=0"
  {
    var ws := DeflatePieces;
    GzipFullText();
    SpacedIdentityHalfText();
    SpacedDeflateNoneText();
    assert ws[..1] == [ws[0]];
    assert Join(PieceTexts(ws[..1]), ',') == "gzip;q=1.0";
    HeaderLiterals.DeflateSplit1();
    PiecesSnoc(ws[..1], ws[1]);
    assert ws[..1] + [ws[1]] == ws[..2];
    assert Join(PieceTexts(ws[..2]), ',') == "gzip;q=1.0, identity; q=0.5";
    HeaderLiterals.DeflateSplit2();
    PiecesSnoc(ws[..2], ws[2]);
    assert ws[..2] + [ws[2]] == ws[..3];
    assert Join(PieceTexts(ws[..3]), ',') == "gzip;q=1.0, identity; q=0.5, deflate;q=0";
    assert ws[..3] == ws;
  }

  lemma DeflatePiecesReadable()
    ensures forall w | w in DeflatePieces :: Readable(w)
  {
    GzipFullReadable();
    SpacedIdentityHalfReadable();
    SpacedDeflateNoneReadable();
  }

  lemma DeflatePiecesMeant()
    ensures MeantFrom(DeflatePieces, 0) == [Entry("gzip", [], 1000, 0), Entry("identity", [], 500, 1), Entry("deflate", [], 0, 2)]
  {
    QValue.ExampleQualities();
    MeantAt(DeflatePieces, 0);
  }

  lemma DeflateHeader()
    ensures ParseHeader(Some("gzip;q=1.0, identity; q=0.5, deflate;q=0")) == [Entry("gzip", [], 1000, 0), Entry("identity", [], 500, 1), Entry("deflate", [], 0, 2)]
  {
    DeflatePiecesJoined();
    DeflatePiecesReadable();
    DeflatePiecesMeant();
    HeaderIs(DeflatePieces, "gzip;q=1.0, identity; q=0.5, deflate;q=0", [Entry("gzip", [], 1000, 0), Entry("identity", [], 500, 1), Entry("deflate", [], 0, 2)]);
  }

  lemma AnyNoneHeader()
    ensures ParseHeader(Some("*;q=0")) == [Entry("*", [], 0, 0)]
  {
    var ws := [AnyNone];
    AnyNoneReadable();
    AnyNoneText();
    QValue.ExampleQualities();
    HeaderReads(ws);
  }

  const ListedPieces := [GzipFull, SpacedIdentityHalf, SpacedAnyNone]

  lemma ListedPiecesJoined()
    ensures Join(PieceTexts(ListedPieces), ',') == "gzip;q=1.0, identity; q=0.5, *;q=0"
  {
    var ws := ListedPieces;
    GzipFullText();
    SpacedIdentityHalfText();
    SpacedAnyNoneText();
    assert ws[..1] == [ws[0]];
    assert Join(PieceTexts(ws[..1]), ',') == "gzip;q=1.0";
    HeaderLiterals.ListedSplit1();
    PiecesSnoc(ws[..1], ws[1]);
    assert ws[..1] + [ws[1]] == ws[..2];
    assert Join(PieceTexts(ws[..2]), ',') == "gzip;q=1.0, identity; q=0.5";
    HeaderLiterals.ListedSplit2();
    PiecesSnoc(ws[..2], ws[2]);
    assert ws[..2] + [ws[2]] == ws[..3];
    assert Join(PieceTexts(ws[..3]), ',') == "gzip;q=1.0, identity; q=0.5, *;q=0";
    assert ws[..3] == ws;
  }

  lemma ListedPiecesReadable()
    ensures forall w | w in ListedPieces :: Readable(w)
  {
    GzipFullReadable();
    SpacedIdentityHalfReadable();
    SpacedAnyNoneReadable();
  }

  lemma ListedPiecesMeant()
    ensures MeantFrom(ListedPieces, 0) == [Entry("gzip", [], 1000, 0), Entry("identity", [], 500, 1), Entry("*", [], 0, 2)]
  {
    QValue.ExampleQualities();
    MeantAt(ListedPieces, 0);
  }

  lemma ListedHeader()
    ensures ParseHeader(Some("gzip;q=1.0, identity; q=0.5, *;q=0")) == [Entry("gzip", [], 1000, 0), Entry("identity", [], 500, 1), Entry("*", [], 0, 2)]
  {
    ListedPiecesJoined();
    ListedPiecesReadable();
    ListedPiecesMeant();
    HeaderIs(ListedPieces, "gzip;q=1.0, identity; q=0.5, *;q=0", [Entry("gzip", [], 1000, 0), Entry("identity", [], 500, 1), Entry("*", [], 0, 2)]);
  }

  const GzipNonePieces := [GzipFull, SpacedAnyNone]

  lemma GzipNonePiecesJoined()
    ensures Join(PieceTexts(GzipNonePieces), ',') == "gzip;q=1.0, *;q=0"
  {
    var ws := GzipNonePieces;
    GzipFullText();
    SpacedAnyNoneText();
    assert ws[..1] == [ws[0]];
    assert Join(PieceTexts(ws[..1]), ',') == "gzip;q=1.0";
    HeaderLiterals.GzipNoneSplit1();
    PiecesSnoc(ws[..1], ws[1]);
    assert ws[..1] + [ws[1]] == ws[..2];
    assert Join(PieceTexts(ws[..2]), ',') == "gzip;q=1.0, *;q=0";
    assert ws[..2] == ws;
  }

  lemma GzipNonePiecesReadable()
    ensures forall w | w in GzipNonePieces :: Readable(w)
  {
    GzipFullReadable();
    SpacedAnyNoneReadable();
  }

  lemma GzipNonePiecesMeant()
    ensures MeantFrom(GzipNonePieces, 0) == [Entry("gzip", [], 1000, 0), Entry("*", [], 0, 1)]
  {
    QValue.ExampleQualities();
    MeantAt(GzipNonePieces, 0);
  }

  lemma GzipNoneHeader()
    ensures ParseHeader(Some("gzip;q=1.0, *;q=0")) == [Entry("gzip", [], 1000, 0), Entry("*", [], 0, 1)]
  {
    GzipNonePiecesJoined();
    GzipNonePiecesReadable();
    GzipNonePiecesMeant();
    HeaderIs(GzipNonePieces, "gzip;q=1.0, *;q=0", [Entry("gzip", [], 1000, 0), Entry("*", [], 0, 1)]);
  }
}
