/**
  The charset names of the example headers in lower case, as the negotiator keeps them.
*/
module CharsetNames {
  import opened Text

  lemma Latin1Lower()
    ensures Lower("ISO-8859-1") == "iso-8859-1"
  {
    var s, t := "ISO-8859-1", "iso-8859-1";
    assert forall i | 0 <= i < |s| :: LowerChar(s[i]) == t[i];
  }

  lemma Utf8Lower()
    ensures Lower("UTF-8") == "utf-8"
  {
    var s, t := "UTF-8", "utf-8";
    assert forall i | 0 <= i < |s| :: LowerChar(s[i]) == t[i];
  }

  lemma Iso5Lower()
    ensures Lower("iso-8859-5") == "iso-8859-5"
  {
    var s := "iso-8859-5";
    assert forall i | 0 <= i < |s| :: LowerChar(s[i]) == s[i];
  }

  lemma UnicodeLower()
    ensures Lower("unicode-1-1") == "unicode-1-1"
  {
    var s := "unicode-1-1";
    assert forall i | 0 <= i < |s| :: LowerChar(s[i]) == s[i];
  }

  lemma AnyLower()
    ensures Lower("*") == "*"
  {
    var s := "*";
    assert forall i | 0 <= i < |s| :: LowerChar(s[i]) == s[i];
  }
}
