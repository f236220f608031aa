# HTTP content negotiation headers

A Dafny model of the request headers of the `http-headers` PHP library
(`Trii\HTTPHeaders`). The library reads the `Accept`, `Accept-Charset` and
`Accept-Encoding` request headers (sections 14.1, 14.2 and 14.3 of RFC 2616). It
answers three questions about each header:

- which values the client accepts, in preference order;
- which value is preferred;
- whether a given value is acceptable.

The repository's test suite, `tests/request_test.php`, is the behaviour modelled
here. Its assertions pin down the parsing, the ranking and the acceptance rules.
The library's production classes are not part of this model. Where the tests say
nothing, the rules of RFC 2616 fill the gap.

The model has these layers:

- `Header` (header.dfy) is the storage every header shares. It is a class whose one
  field, the raw value, is set by the constructor, `setValue` and `parse`.
- `Text` (text.dfy) holds:
  - whitespace trimming;
  - splitting at separators outside double quotes, and the join that inverts the split;
  - ASCII lower-casing.
- `QValue` (qvalue.dfy) holds quality values, kept as whole thousandths
  (`q=0.8` is 800, the default is 1000). Section 3.9 of RFC 2616 gives their grammar.
- `Entries` (entries.dfy) is the shared parser.
  - A header value becomes a list of entries.
  - Each entry has a token, its parameters other than `q`, a quality and its
    position in the header.
  - It also holds the formatting of an entry back to text, and the specificity of a
    media range.
- `HeaderTexts` (header_texts.dfy) describes header text built from plain pieces:
  a token, `name=value` parameters and an optional `q` parameter, each optionally led
  by a space. It proves such text parses to the entries the pieces mean.
  `HeaderLiterals` (header_literals.dfy) and `ExampleHeaders` (example_headers.dfy)
  apply it to every header value the test suite uses.
- `Ranking` (ranking.dfy) puts the entries in preference order, comparing them key by key:
  1. higher quality first;
  2. then exact names before `type/*`, which come before `*` and `*/*`;
  3. then by anchor. An entry with more parameters than an earlier entry of the same
     token and quality takes the position of the earliest such entry. Any other entry
     keeps its own written position.
  4. then more parameters first;
  5. then in written order.

  The order is a stable insertion sort. It is specified by a function and
  implemented in place on an array.
- `Preference` (preference.dfy) holds what the negotiators share:
  - the acceptable entries (quality above zero);
  - the first of them in ranked order;
  - the listing rule. Under it a name's own entries decide for that name, and the
    wildcard `*` decides for every name not listed. A single entry at quality zero
    refuses its name, however else the name is listed: explicit refusal is absolute.
  - the first entry in ranked order whose name is not refused, which is the preferred
    charset or coding.
- `Accept`, `AcceptCharset` and `AcceptEncoding` are the three negotiators. Each is
  given by its parsed entries:
  - `Accept` judges a media type by the most specific ranges matching it. One of them
    at quality zero refuses the type.
  - `AcceptCharset` lower-cases names. It adds ISO-8859-1 at full quality when the
    header neither lists it nor has a wildcard.
  - `AcceptEncoding` adds `identity` at full quality when the header neither lists it
    nor refuses it through the wildcard.
- `AcceptCases`, `CharsetCases` and `EncodingCases` hold the worked examples of the
  test suite, one lemma per assertion group.
  - Each example is stated from the header text the test passes in.
  - The lemmas whose names end in `Of` state the same facts from the parsed entries.
  - `Cases` and `CharsetNames` (charset_names.dfy) hold the helper lemmas they share.

## Model

| member | source | states |
|---|---|---|
| Header.Header.constructor | tests/request_test.php:62-70 | A header holds the value it is built with, or no value. |
| Header.Header.SetValue | tests/request_test.php:72-76 | Setting a value stores it, replacing the old one. |
| Header.Header.Parse | tests/request_test.php:83-87 | Parsing a raw value stores it as the header's value. |
| Header.ValueOfFresh | tests/request_test.php:62-65 | A header built without a value returns none. |
| Header.ValueOfGiven | tests/request_test.php:67-70 | A header built with "josh" returns it. |
| Header.ValueAfterSet | tests/request_test.php:72-87 | After `setValue` or `parse` on a fresh header, the value read back is the one given. |
| Header.LastValueWins | tests/request_test.php:72-76 | A value set later replaces the one the header was built with. |
| Text.TrimResult | tests/request_test.php:129-131 | A trimmed value has no whitespace at either end, and it is empty exactly when the input is all whitespace. |
| Text.TrimTrimmed | tests/request_test.php:129-131 | Trimming leaves an already trimmed value as it is. |
| Text.JoinSplit | tests/request_test.php:138-142 | Splitting a header value at a separator and joining the pieces again gives back the value. |
| Text.SplitJoin | tests/request_test.php:138-142 | Pieces that hold no separator outside quotes, once joined, split back into exactly those pieces. |
| Text.NoQuotes | tests/request_test.php:102-103 | A string without double quotes counts no quote characters, so the splitter never enters a quoted region in it. |
| Text.Lower | tests/request_test.php:239-243 | Lower-casing keeps the length and maps each character on its own, independently of the others. |
| Text.LowerKeeps | tests/request_test.php:239-243 | Lower-casing leaves a name unchanged exactly when it has no upper-case ASCII letter. |
| Text.LowerIdempotent | tests/request_test.php:239-243 | Lower-casing twice is lower-casing once. |
| QValue.Format | tests/request_test.php:108-110 | Every quality has a canonical text that fits the qvalue grammar. |
| QValue.ParseFormat | tests/request_test.php:108-110 | Parsing a quality's canonical text gives back the quality. |
| QValue.ParseLenient | tests/request_test.php:353 | A value not starting with "0" (such as "1.0") means full quality. |
| QValue.ParseZero | tests/request_test.php:466-470 | A quality is zero exactly when its text is "0" followed by at most zeros in the first three decimals. |
| QValue.ExampleQualities | tests/request_test.php:108 | The quality values in the test headers ("0.2", "0.5", "0.8", "0.9", "0.1", "0", "1.0") read as 200, 500, 800, 900, 100, 0 and 1000. |
| Entries.ParseParam | tests/request_test.php:114-116 | A parameter's name is trimmed. |
| Entries.ParamText | tests/request_test.php:114-125 | `name=value` reads as the trimmed name with the trimmed value, quotes kept as written. |
| Entries.ParamBare | tests/request_test.php:114-116 | A parameter written without `=` reads as its trimmed name with no value. |
| Entries.QualityOf | tests/request_test.php:100-110 | An element without a `q` parameter has full quality. |
| Entries.QualityFirst | tests/request_test.php:106-131 | The quality is the value of the first `q` parameter, read as a qvalue. |
| Entries.WithoutQ | tests/request_test.php:123-125 | The retained parameters are parameters of the element, none of them `q`. |
| Entries.WithoutQKeeps | tests/request_test.php:123-125 | Dropping `q` keeps every other parameter. |
| Entries.WithoutQNone | tests/request_test.php:114-116 | An element without `q` keeps all of its parameters, in the written order. |
| Entries.ParseEntry | tests/request_test.php:123-131 | An element gives an entry at its own position, with a trimmed token and no `q` among its parameters. |
| Entries.EntryJoined | tests/request_test.php:123-131 | An element made of semicolon-joined parts, none holding a semicolon outside quotes, has the trimmed first part as its token. The parameters read from the other parts give its quality and, without `q`, its parameters. |
| Entries.PlainEntry | tests/request_test.php:100-103 | An element without parameters or quotes is its trimmed token at full quality. |
| Entries.ReadPlain | tests/request_test.php:114-116 | A token followed by `name=value` parameters, optionally led by a space, reads as that token with those parameters at full quality, and formats back without the leading space. |
| Entries.ReadWeighted | tests/request_test.php:120-131 | The same text ending in `q=v` or ` q=v` reads with quality `v`, and formats back without the `q` parameter, the other parameters kept as written. |
| Entries.Format | tests/request_test.php:100-104 | An entry without parameters formats as its token alone. |
| Entries.FormatReads | tests/request_test.php:114-131 | Reading an entry's formatted text gives back the entry at full quality: formatting keeps the token and every parameter and drops only the quality. |
| Entries.NonBlank | tests/request_test.php:524-529 | An element is kept exactly when it holds more than whitespace. |
| Entries.NonBlankAppend | tests/request_test.php:524-529 | Dropping blank elements keeps the written order of the others. |
| Entries.NonBlankAll | tests/request_test.php:138-142 | A header with no blank element keeps all its elements, in order. |
| Entries.ParseHeader | tests/request_test.php:138-142 | The entries of a header are numbered by their written position. |
| Entries.ParseJoined | tests/request_test.php:138-142 | A header made of comma-joined non-blank elements parses into one entry per element, in written order. |
| Entries.BlankElements | tests/request_test.php:524-529 | An empty header value parses to no entries. |
| Entries.Level | tests/request_test.php:158-163 | The specificity of a token is 0 exactly for `*` and `*/*`, 1 exactly for a `type/*` range, and 2 otherwise. |
| Entries.WildcardShapes | tests/request_test.php:158-163 | A token is a full wildcard exactly when it is `*` or both its halves are `*`, and a partial wildcard exactly when only its subtype is `*`. |
| HeaderTexts.PieceReads | tests/request_test.php:100-131 | One piece of header text, written as a token, parameters and an optional quality, parses to the entry it means; it holds no comma outside quotes and is not blank, so it is one element of a header. |
| HeaderTexts.HeaderReads | tests/request_test.php:138-170 | Pieces joined by commas parse to the entries they mean, numbered in written order. |
| HeaderTexts.HeaderIs | tests/request_test.php:138-170 | A header text equal to such a join parses to the entries its pieces mean. |
| Ranking.Sort | tests/request_test.php:137-171 | Sorting keeps the same entries, each as often as before, and under a strict weak order puts none behind an entry it ranks ahead of. |
| Ranking.Rank | tests/request_test.php:137-171 | The ranked entries are the header's entries, each as often as written, and no ranked entry comes behind one it ranks ahead of. |
| Ranking.BeforeTotal | tests/request_test.php:151-156 | Any two distinct ranking keys are ordered one way, and never both ways. |
| Ranking.BeforeTransitive | tests/request_test.php:151-156 | The key order is transitive. |
| Ranking.RankOrderIsStrictWeak | tests/request_test.php:137-171 | The ranking order of a header's entries is asymmetric, and being not ahead is transitive, so the sort can rely on it. |
| Ranking.InsertPermutes | tests/request_test.php:137-171 | Inserting an entry adds exactly that entry. |
| Ranking.InsertSorted | tests/request_test.php:137-171 | Inserting into a ranked sequence keeps it ranked. |
| Ranking.SortedUnique | tests/request_test.php:137-171 | A strict chain is the only ordered arrangement of its entries. |
| Ranking.RankIs | tests/request_test.php:137-171 | A rearrangement of the entries in which each is ahead of the next is the ranking. |
| Ranking.AnchorOf | tests/request_test.php:158-163 | An entry's anchor is its own position or the position of an entry of its token and quality with fewer parameters, and no later than either. |
| Ranking.AnchorPlain | tests/request_test.php:138-142 | An entry without parameters is anchored at its own written position. |
| Ranking.AnchorUnder | tests/request_test.php:158-163 | An entry with at least as many parameters as another of the same token and quality is anchored no later, unless both have as many parameters and the other is written first. |
| Ranking.RankQualityDescending | tests/request_test.php:151-156 | The ranked entries have non-increasing quality. |
| Ranking.RankLevelDescending | tests/request_test.php:158-163 | At equal quality, exact names come before `type/*`, which come before the full wildcards. |
| Ranking.RankParamsDescending | tests/request_test.php:158-163 | Among entries of the same token and quality, the one with more parameters comes first. |
| Ranking.RankOvertakes | tests/request_test.php:138-163 | At equal quality and specificity, an entry is ranked ahead of an entry written before it only when an entry of its token and quality with fewer parameters is written no later than that entry. |
| Ranking.RankStable | tests/request_test.php:165-170 | Entries equal in quality, token and parameter count keep their written order. |
| Ranking.InsertInPlace | tests/request_test.php:137-171 | Moving an array element back into the sorted prefix inserts it as the specification does, leaving the rest of the array alone. |
| Ranking.SortStep | tests/request_test.php:137-171 | One step of the in-place sort extends the sorted prefix by one element and leaves the rest of the array alone. |
| Ranking.SortInPlace | tests/request_test.php:137-171 | The in-place insertion sort leaves the array holding the specified sort of its old contents. |
| Ranking.RankEntries | tests/request_test.php:137-171 | Ranking by sorting an array in place gives the specified ranking. |
| Preference.Accepts | tests/request_test.php:393-478 | A name is accepted only through an entry above quality zero for it or for `*`. A listed name is accepted exactly when none of its entries has quality zero, so one entry at quality zero refuses it whatever else is listed. An unlisted name is accepted exactly when the wildcard is. |
| Preference.Tokens | tests/request_test.php:241-243 | The names of the entries, one per entry, in order. |
| Preference.Acceptable | tests/request_test.php:106-110 | The acceptable entries are exactly the entries with a quality above zero. |
| Preference.FirstAcceptable | tests/request_test.php:176-194 | There is no first acceptable entry exactly when every quality is zero; otherwise it is the first entry with a quality above zero. |
| Preference.FirstIsHead | tests/request_test.php:176-194 | The first acceptable entry is the head of the acceptable entries. |
| Preference.AcceptableSorted | tests/request_test.php:137-171 | Dropping refused entries keeps ranked entries ranked. |
| Preference.RankedAcceptable | tests/request_test.php:137-171 | The ranked acceptable entries are exactly the entries with quality above zero, still in ranked order. |
| Preference.PreferredBest | tests/request_test.php:176-194 | The preferred entry exists exactly when some entry has a quality above zero. It is acceptable, and no acceptable entry ranks ahead of it or has a higher quality. |
| Preference.FirstWelcomed | tests/request_test.php:305-318 | There is none exactly when the header refuses the name of every entry; otherwise it is the first entry whose name the header does not refuse. |
| Preference.WelcomedBest | tests/request_test.php:305-318 | The preferred name exists exactly when the header leaves some written name unrefused. It comes from an entry above quality zero, it is acceptable under the listing rule, and no entry with an unrefused name ranks ahead of it or has a higher quality. |
| Preference.RankedTokens | tests/request_test.php:275-299 | The ranked names are the header's names, one per written entry. |
| Accept.AllInMeans | tests/request_test.php:158-163 | A range's parameters are all among the candidate's exactly when each one of them is. |
| Accept.WeighDescribes | tests/request_test.php:199-223 | Weighing one more range keeps the verdict a faithful judgement of the longer list. |
| Accept.Judge | tests/request_test.php:199-223 | A verdict is no match exactly when no range matches. Otherwise it records the greatest specificity among matching ranges, and it accepts exactly when every most specific match has a quality above zero. |
| Accept.Types | tests/request_test.php:100-171 | The iterated types are the acceptable ranges in ranked order, each formatted without its `q` parameter. |
| Accept.FormatAll | tests/request_test.php:121-132 | Each range is formatted as its token and retained parameters, in order. |
| Accept.TypesRanked | tests/request_test.php:137-171 | A type is iterated exactly when some range with quality above zero formats to it, and no type comes behind one whose range ranks ahead. |
| Accept.FormatAllHolds | tests/request_test.php:121-132 | The formatted list holds exactly the formats of the ranges. |
| Accept.PreferredType | tests/request_test.php:173-194 | The preferred type is the first type iterated, and there is none when no type is iterated. |
| Accept.PreferredTypeBest | tests/request_test.php:176-194 | The preferred type exists exactly when some range has quality above zero. It formats an acceptable range that no acceptable range ranks ahead of or outweighs. |
| Accept.Candidate | tests/request_test.php:199-223 | A candidate media type reads as an entry with a trimmed token and no `q` parameter; one written without parameters or quotes is its trimmed self at full quality. |
| Accept.IsAccepted | tests/request_test.php:199-223 | A media type is accepted exactly when some most specific matching range has positive quality and none of them has quality zero. A media type no range matches is refused. |
| Accept.JudgeAccepts | tests/request_test.php:199-223 | The verdict accepts exactly when some most specific matching range has positive quality and none has quality zero. It refuses when no range matches. |
| Accept.RefusedExactly | tests/request_test.php:199-223 | An exact range without parameters at quality zero refuses its media type, however else the type is listed and whatever the wildcards say. |
| AcceptCharset.Lowered | tests/request_test.php:239-243 | Every charset name is lower-cased and nothing else about the entries changes. |
| AcceptCharset.Explicit | tests/request_test.php:239-250 | The entries of the header are numbered in written order, with lower-case names. |
| AcceptCharset.Complete | tests/request_test.php:252-262 | After completion, ISO-8859-1 or the wildcard is always listed. |
| AcceptCharset.CompleteHolds | tests/request_test.php:252-262 | Completion adds the implicit ISO-8859-1 entry when the header neither lists it nor has a wildcard, and adds nothing else. |
| AcceptCharset.Latin1LowerCase | tests/request_test.php:243 | ISO-8859-1 is spelt in lower case. |
| AcceptCharset.Latin1Level | tests/request_test.php:280-287 | ISO-8859-1 is an exact name, not a wildcard. |
| AcceptCharset.GetCharsets | tests/request_test.php:237-299 | The listed charsets are the header's names, plus ISO-8859-1 exactly when it is implicit, one per entry. |
| AcceptCharset.GetCharsetsLists | tests/request_test.php:239-262 | For a header read by the negotiator, every listed charset is in lower case. |
| AcceptCharset.AheadOfImplicit | tests/request_test.php:276-287 | A written full-quality charset ranks ahead of the implicit ISO-8859-1. |
| AcceptCharset.ImplicitRanksLast | tests/request_test.php:276-287 | The implicit ISO-8859-1 comes after every written full-quality charset. |
| AcceptCharset.PreferredCharset | tests/request_test.php:305-318 | There is no preferred charset exactly when the header refuses every charset it negotiates over, the implicit ISO-8859-1 included. Otherwise it names an entry above zero that no entry with an unrefused name ranks ahead of or outweighs. |
| AcceptCharset.PreferredCharsetBest | tests/request_test.php:305-318 | For a header read by the negotiator, the preferred charset is acceptable. |
| AcceptCharset.PreferredCharsetExists | tests/request_test.php:312-317 | Without a wildcard, and unless ISO-8859-1 is refused, some charset is preferred. |
| AcceptCharset.IsAccepted | tests/request_test.php:323-339 | A charset, compared in lower case, is decided by its own entries when listed, by the wildcard when unlisted; without a wildcard, only ISO-8859-1 is acceptable unlisted. |
| AcceptCharset.RefusalAbsolute | tests/request_test.php:323-339 | For a header read by the negotiator, every charset some entry lists at quality zero is refused, however else it is listed. |
| AcceptCharset.IsAcceptedLowerCase | tests/request_test.php:323-339 | A name without upper-case letters is judged as written, by the listing rule over the completed entries. |
| AcceptEncoding.Complete | tests/request_test.php:515-522 | Completion keeps the header's entries in front and adds at most one; afterwards `identity` is listed or refused by the wildcard. |
| AcceptEncoding.CompleteHolds | tests/request_test.php:515-522 | Completion adds `identity` when it is neither listed nor refused by the wildcard, and adds nothing else. |
| AcceptEncoding.IsAccepted | tests/request_test.php:393-478 | A listed coding is decided by its own entries and an unlisted one by the wildcard. Without a wildcard, only `identity` is acceptable unlisted. |
| AcceptEncoding.IdentityRule | tests/request_test.php:515-572 | `identity` is acceptable unless an entry lists it at quality zero, or it is unlisted and a wildcard has quality zero. |
| AcceptEncoding.RefusalAbsolute | tests/request_test.php:440-449 | Every coding some entry lists at quality zero is refused, however else it is listed. |
| AcceptEncoding.PreferredEncoding | tests/request_test.php:480-506 | There is no preferred coding exactly when the header refuses every coding it negotiates over, the implicit `identity` included. Otherwise the preferred coding is acceptable and names an entry above zero that no entry with an unrefused name ranks ahead of or outweighs. |
| AcceptEncoding.NoPreferredEncoding | tests/request_test.php:499-505 | There is no preferred coding exactly when every written coding and `identity` are refused. |
| AcceptEncoding.EmptyHeader | tests/request_test.php:507-529 | A header without entries accepts exactly `identity` and prefers it. |
| AcceptEncoding.UnsetHeader | tests/request_test.php:507-512 | A header built without a value accepts exactly `identity` and prefers it. |
| AcceptEncoding.BlankHeader | tests/request_test.php:524-529 | An empty header value accepts exactly `identity` and prefers it. |
| AcceptCases.SingleType | tests/request_test.php:100-104 | `text/html` iterates as `["text/html"]`. |
| AcceptCases.SingleTypeQuality | tests/request_test.php:106-110 | `text/html; q=0.2` iterates as `["text/html"]`. |
| AcceptCases.SingleTypeLevel | tests/request_test.php:112-116 | `text/html;level=1` iterates as `["text/html;level=1"]`. |
| AcceptCases.SingleTypeQuoted | tests/request_test.php:120-132 | `text/html;josh="hello";q=0.1`, with or without a space before `q`, iterates as `text/html;josh="hello"`. |
| AcceptCases.TextTypes | tests/request_test.php:137-143 | `text/html, text/xml;level=1, text/*` iterates in written order. |
| AcceptCases.AudioTypes | tests/request_test.php:145-149 | `audio/*; q=0.2, audio/basic` iterates as `audio/basic, audio/*` (lines 145-149) and prefers `audio/basic` (lines 177-181). |
| AcceptCases.PlainTypes | tests/request_test.php:151-156 | `text/plain; q=0.5, text/html, text/x-dvi; q=0.8, text/x-c` iterates as `text/html, text/x-c, text/x-dvi, text/plain` and prefers `text/html` (lines 183-187). |
| AcceptCases.LevelTypes | tests/request_test.php:158-163 | `text/*, text/html, text/html;level=1, */*` iterates as `text/html;level=1, text/html, text/*, */*` and prefers `text/html;level=1` (lines 189-193). |
| AcceptCases.BrowserTypes | tests/request_test.php:165-170 | The browser header iterates as `text/html, application/xhtml+xml, application/json, application/xml, */*`. |
| AcceptCases.RepeatedRange | tests/request_test.php:137-143 | A token written again after another token of the same quality and specificity stays behind it: `a/a, b/b, a/a` ranks in written order. |
| AcceptCases.RefusedTwice | tests/request_test.php:199-223 | `text/html;q=0, text/html` refuses `text/html`: listing the range again above quality zero does not undo the refusal. |
| AcceptCases.AudioAcceptsBasic | tests/request_test.php:200-204 | `audio/*; q=0.2, audio/basic` accepts `audio/basic` by an exact match. |
| AcceptCases.AudioAcceptsOther | tests/request_test.php:206-208 | That header accepts `audio/mpeg` through the partial wildcard. |
| AcceptCases.AudioRefusesVideo | tests/request_test.php:210-212 | That header refuses `video/mpeg`, which no range matches. |
| AcceptCases.BrowserAcceptsXhtml | tests/request_test.php:214-218 | The browser header accepts `application/xhtml+xml`. |
| AcceptCases.BrowserAcceptsJson | tests/request_test.php:220-222 | The browser header accepts `application/json`. |
| CharsetCases.Latin1Only | tests/request_test.php:237-250 | `ISO-8859-1`, with or without `; q=0.2`, lists only `iso-8859-1`. |
| CharsetCases.Utf8Implicit | tests/request_test.php:258-262 | `UTF-8` lists `utf-8, iso-8859-1`. |
| CharsetCases.ImplicitCharsets | tests/request_test.php:275-310 | `iso-8859-5, unicode-1-1;q=0.8` lists `iso-8859-5, iso-8859-1, unicode-1-1` and prefers `iso-8859-5`. |
| CharsetCases.ImplicitAcceptsListed | tests/request_test.php:329-332 | That header accepts `unicode-1-1`. |
| CharsetCases.ImplicitAcceptsFirst | tests/request_test.php:334-335 | That header accepts `iso-8859-5`. |
| CharsetCases.ImplicitAcceptsLatin1 | tests/request_test.php:337-338 | That header accepts the unlisted `iso-8859-1`. |
| CharsetCases.WildcardCharsets | tests/request_test.php:289-299 | `UTF-8,*` lists `utf-8, *` and adds no ISO-8859-1. |
| CharsetCases.ImplicitPreferred | tests/request_test.php:312-317 | `unicode-1-1;q=0.8` prefers the implicit `iso-8859-1`. |
| CharsetCases.WildcardAccepts | tests/request_test.php:324-327 | `*` accepts `utf-8`. |
| EncodingCases.GzipAccepts | tests/request_test.php:403-408 | `gzip` accepts gzip (lines 403-408) and identity (lines 538-543). |
| EncodingCases.CompressGzipAccepts | tests/request_test.php:410-423 | `compress, gzip` accepts both and identity (lines 545-550), and refuses deflate. |
| EncodingCases.WeightedAccepts | tests/request_test.php:425-438 | `compress;q=0.5, gzip;q=1.0` accepts both and identity (lines 552-557), and refuses deflate. |
| EncodingCases.WeightedPreferred | tests/request_test.php:485-490 | That header prefers gzip. |
| EncodingCases.RefusedAccepts | tests/request_test.php:440-449 | `gzip;q=1.0, identity; q=0.5, deflate;q=0` accepts gzip and refuses deflate. |
| EncodingCases.RefusedTwice | tests/request_test.php:440-449 | `gzip;q=0, gzip` refuses `gzip` although it is listed again above quality zero, and prefers `identity` although the second `gzip` ranks ahead of it. |
| EncodingCases.WildcardAccepts | tests/request_test.php:456-462 | `*` accepts gzip, and identity (lines 531-536). |
| EncodingCases.RefuseAll | tests/request_test.php:464-505 | `*;q=0` refuses deflate (lines 464-470) and has no preferred coding (lines 499-505). |
| EncodingCases.ListedIdentity | tests/request_test.php:472-477 | `gzip;q=1.0, identity; q=0.5, *;q=0` refuses deflate, and accepts identity (lines 559-564). |
| EncodingCases.ListedIdentityPreferred | tests/request_test.php:492-497 | That header prefers gzip. |
| EncodingCases.IdentityRefused | tests/request_test.php:566-571 | `gzip;q=1.0, *;q=0` refuses identity. |
| ExampleHeaders.HtmlHeader | tests/request_test.php:102 | `text/html` reads as `text/html` at quality 1, numbered in written order. |
| ExampleHeaders.HtmlLowHeader | tests/request_test.php:108 | `text/html; q=0.2` reads as `text/html` at quality 0.2, numbered in written order. |
| ExampleHeaders.HtmlLevelHeader | tests/request_test.php:114 | `text/html;level=1` reads as `text/html` with `level=1` at quality 1, numbered in written order. |
| ExampleHeaders.HtmlJoshHeader | tests/request_test.php:123 | `text/html;josh="hello";q=0.1` reads as `text/html` with `josh="hello"` at quality 0.1, numbered in written order. |
| ExampleHeaders.HtmlJoshSpacedHeader | tests/request_test.php:129 | `text/html;josh="hello"; q=0.1` reads as `text/html` with `josh="hello"` at quality 0.1, numbered in written order. |
| ExampleHeaders.TextHeader | tests/request_test.php:138 | `text/html, text/xml;level=1, text/*` reads as `text/html` at quality 1, then `text/xml` with `level=1` at quality 1, then `text/*` at quality 1, numbered in written order. |
| ExampleHeaders.AudioHeader | tests/request_test.php:145 | `audio/*; q=0.2, audio/basic` reads as `audio/*` at quality 0.2, then `audio/basic` at quality 1, numbered in written order. |
| ExampleHeaders.PlainHeader | tests/request_test.php:151 | `text/plain; q=0.5, text/html, text/x-dvi; q=0.8, text/x-c` reads as `text/plain` at quality 0.5, then `text/html` at quality 1, then `text/x-dvi` at quality 0.8, then `text/x-c` at quality 1, numbered in written order. |
| ExampleHeaders.LevelsHeader | tests/request_test.php:158 | `text/*, text/html, text/html;level=1, */*` reads as `text/*` at quality 1, then `text/html` at quality 1, then `text/html` with `level=1` at quality 1, then `*/*` at quality 1, numbered in written order. |
| ExampleHeaders.BrowserHeader | tests/request_test.php:165 | `text/html,application/xhtml+xml,application/xml;q=0.9,*/*;q=0.8,application/json` reads as `text/html` at quality 1, then `application/xhtml+xml` at quality 1, then `application/xml` at quality 0.9, then `*/*` at quality 0.8, then `application/json` at quality 1, numbered in written order. |
| ExampleHeaders.Latin1Header | tests/request_test.php:239 | `ISO-8859-1` reads as `ISO-8859-1` at quality 1, numbered in written order. |
| ExampleHeaders.Latin1LowHeader | tests/request_test.php:246 | `ISO-8859-1; q=0.2` reads as `ISO-8859-1` at quality 0.2, numbered in written order. |
| ExampleHeaders.Utf8Header | tests/request_test.php:258 | `UTF-8` reads as `UTF-8` at quality 1, numbered in written order. |
| ExampleHeaders.Iso5UnicodeHeader | tests/request_test.php:276 | `iso-8859-5, unicode-1-1;q=0.8` reads as `iso-8859-5` at quality 1, then `unicode-1-1` at quality 0.8, numbered in written order. |
| ExampleHeaders.Utf8AnyHeader | tests/request_test.php:289 | `UTF-8,*` reads as `UTF-8` at quality 1, then `*` at quality 1, numbered in written order. |
| ExampleHeaders.UnicodeHeader | tests/request_test.php:313 | `unicode-1-1;q=0.8` reads as `unicode-1-1` at quality 0.8, numbered in written order. |
| ExampleHeaders.AnyHeader | tests/request_test.php:324 | `*` reads as `*` at quality 1, numbered in written order. |
| ExampleHeaders.GzipHeader | tests/request_test.php:404 | `gzip` reads as `gzip` at quality 1, numbered in written order. |
| ExampleHeaders.CompressGzipHeader | tests/request_test.php:411 | `compress, gzip` reads as `compress` at quality 1, then `gzip` at quality 1, numbered in written order. |
| ExampleHeaders.WeightedHeader | tests/request_test.php:426 | `compress;q=0.5, gzip;q=1.0` reads as `compress` at quality 0.5, then `gzip` at quality 1, numbered in written order. |
| ExampleHeaders.DeflateHeader | tests/request_test.php:441 | `gzip;q=1.0, identity; q=0.5, deflate;q=0` reads as `gzip` at quality 1, then `identity` at quality 0.5, then `deflate` at quality 0, numbered in written order. |
| ExampleHeaders.AnyNoneHeader | tests/request_test.php:466 | `*;q=0` reads as `*` at quality 0, numbered in written order. |
| ExampleHeaders.ListedHeader | tests/request_test.php:473 | `gzip;q=1.0, identity; q=0.5, *;q=0` reads as `gzip` at quality 1, then `identity` at quality 0.5, then `*` at quality 0, numbered in written order. |
| ExampleHeaders.GzipNoneHeader | tests/request_test.php:567 | `gzip;q=1.0, *;q=0` reads as `gzip` at quality 1, then `*` at quality 0, numbered in written order. |
| CharsetCases.Latin1Read | tests/request_test.php:239 | The Accept-Charset value `ISO-8859-1` reads as `iso-8859-1` at quality 1, with the names in lower case. |
| CharsetCases.Latin1LowRead | tests/request_test.php:246 | The Accept-Charset value `ISO-8859-1; q=0.2` reads as `iso-8859-1` at quality 0.2, with the names in lower case. |
| CharsetCases.Utf8Read | tests/request_test.php:258 | The Accept-Charset value `UTF-8` reads as `utf-8` at quality 1, with the names in lower case. |
| CharsetCases.Iso5UnicodeRead | tests/request_test.php:276 | The Accept-Charset value `iso-8859-5, unicode-1-1;q=0.8` reads as `iso-8859-5` at quality 1, then `unicode-1-1` at quality 0.8, with the names in lower case. |
| CharsetCases.Utf8AnyRead | tests/request_test.php:289 | The Accept-Charset value `UTF-8,*` reads as `utf-8` at quality 1, then `*` at quality 1, with the names in lower case. |
| CharsetCases.UnicodeRead | tests/request_test.php:313 | The Accept-Charset value `unicode-1-1;q=0.8` reads as `unicode-1-1` at quality 0.8, with the names in lower case. |
| CharsetCases.AnyRead | tests/request_test.php:324 | The Accept-Charset value `*` reads as `*` at quality 1, with the names in lower case. |

## Left out

- The production classes `Header`, `Accept`, `AcceptCharset` and `AcceptEncoding` of the
  library are not part of this model. The behaviour modelled is what the test suite
  asserts, completed by the rules of RFC 2616.
- The negotiators are modelled as functions of their parsed entry lists rather than
  as objects. The only state they keep is the stored header value, which
  `Header.Header` models.
- PHP's `Iterator` protocol (`current`, `key`, `next`, `rewind`, `valid`) and
  `iterator_to_array` are left out. `Accept.Types` is the sequence the iteration yields.
- `getName` of each header class returns a constant string and is left out.
- Quality values are whole thousandths, not floating point. Digits after the third
  decimal are ignored.
- Quoted strings in parameters are kept verbatim. Backslash escapes inside them
  (quoted-pair) are not interpreted.
- Media types and content-codings are compared as written, with no case folding.
  Only charset names are lower-cased.
- The aliases `x-gzip` and `x-compress` (tests/request_test.php:372-374) are not
  treated as equal to `gzip` and `compress`. The coding formats themselves are out of scope.
- GetCharsets: lists every charset of the header, those at quality zero included.
  The tests never list a refused charset, so this choice is not pinned down.
- FirstAcceptable: the preferred value of a header may be the wildcard `*` or `*/*`
  itself when that ranks first. The tests never exercise this.
- Accept.PreferredType: the iterated types and the preferred type take every range
  above quality zero. A range also listed at quality zero is therefore iterated and
  may be preferred, although `Accept.IsAccepted` refuses it. Iteration keeps each
  written range, and the tests never list a range twice.
- Entries.ParseParam: whitespace around `=` in a parameter is trimmed, so
  `text/html; level = 1` is read and iterated as `text/html;level=1`. Parameter
  values are otherwise kept as written.
- Entries.IsQ: an upper-case `Q` parameter is read as the quality, as `q` is.
- GetCharsetsLists: states only that the listed names are in lower case. Which names
  are listed is stated by `AcceptCharset.GetCharsets`.
- PreferredCharsetBest: states only that the preferred charset is acceptable. Its
  rank and quality are stated by `AcceptCharset.PreferredCharset`.
