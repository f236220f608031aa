/**
  The example header values split at their top-level commas, one element at a time:
  each lemma states that a header value is the value before its last element, a comma
  and that last element.
*/
module HeaderLiterals {
  lemma TextSplit1()
    ensures "text/html, text/xml;level=1" == "text/html" + "," + " text/xml;level=1"
  {
  }

  lemma TextSplit2()
    ensures "text/html, text/xml;level=1, text/*" == "text/html, text/xml;level=1" + "," + " text/*"
  {
  }

  lemma AudioSplit1()
    ensures "audio/*; q=0.2, audio/basic" == "audio/*; q=0.2" + "," + " audio/basic"
  {
  }

  lemma PlainSplit1()
    ensures "text/plain; q=0.5, text/html" == "text/plain; q=0.5" + "," + " text/html"
  {
  }

  lemma PlainSplit2()
    ensures "text/plain; q=0.5, text/html, text/x-dvi; q=0.8" == "text/plain; q=0.5, text/html" + "," + " text/x-dvi; q=0.8"
  {
  }

  lemma PlainSplit3()
    ensures "text/plain; q=0.5, text/html, text/x-dvi; q=0.8, text/x-c" == "text/plain; q=0.5, text/html, text/x-dvi; q=0.8" + "," + " text/x-c"
  {
  }

  lemma LevelsSplit1()
    ensures "text/*, text/html" == "text/*" + "," + " text/html"
  {
  }

  lemma LevelsSplit2()
    ensures "text/*, text/html, text/html;level=1" == "text/*, text/html" + "," + " text/html;level=1"
  {
  }

  lemma LevelsSplit3()
    ensures "text/*, text/html, text/html;level=1, */*" == "text/*, text/html, text/html;level=1" + "," + " */*"
  {
  }

  lemma BrowserSplit1()
    ensures "text/html,application/xhtml+xml" == "text/html" + "," + "application/xhtml+xml"
  {
  }

  lemma BrowserSplit2()
    ensures "text/html,application/xhtml+xml,application/xml;q=0.9" == "text/html,application/xhtml+xml" + "," + "application/xml;q=0.9"
  {
  }

  lemma BrowserSplit3()
    ensures "text/html,application/xhtml+xml,application/xml;q=0.9,*/*;q=0.8" == "text/html,application/xhtml+xml,application/xml;q=0.9" + "," + "*/*;q=0.8"
  {
  }

  lemma BrowserSplit4()
    ensures "text/html,application/xhtml+xml,application/xml;q=0.9,*/*;q=0.8,application/json" == "text/html,application/xhtml+xml,application/xml;q=0.9,*/*;q=0.8" + "," + "application/json"
  {
  }

  lemma Iso5UnicodeSplit1()
    ensures "iso-8859-5, unicode-1-1;q=0.8" == "iso-8859-5" + "," + " unicode-1-1;q=0.8"
  {
  }

  lemma Utf8AnySplit1()
    ensures "UTF-8,*" == "UTF-8" + "," + "*"
  {
  }

  lemma CompressGzipSplit1()
    ensures "compress, gzip" == "compress" + "," + " gzip"
  {
  }

  lemma WeightedSplit1()
    ensures "compress;q=0.5, gzip;q=1.0" == "compress;q=0.5" + "," + " gzip;q=1.0"
  {
  }

  lemma DeflateSplit1()
    ensures "gzip;q=1.0, identity; q=0.5" == "gzip;q=1.0" + "," + " identity; q=0.5"
  {
  }

  lemma DeflateSplit2()
    ensures "gzip;q=1.0, identity; q=0.5, deflate;q=0" == "gzip;q=1.0, identity; q=0.5" + "," + " deflate;q=0"
  {
  }

  lemma ListedSplit1()
    ensures "gzip;q=1.0, identity; q=0.5" == "gzip;q=1.0" + "," + " identity; q=0.5"
  {
  }

  lemma ListedSplit2()
    ensures "gzip;q=1.0, identity; q=0.5, *;q=0" == "gzip;q=1.0, identity; q=0.5" + "," + " *;q=0"
  {
  }

  lemma GzipNoneSplit1()
    ensures "gzip;q=1.0, *;q=0" == "gzip;q=1.0" + "," + " *;q=0"
  {
  }
}
