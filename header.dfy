/**
  The storage every header shares: one raw value, unset (`None`) until given. The
  constructor, `SetValue` and `Parse` all store the raw string they receive, replacing
  whatever was there; each negotiator reads its answers off the stored value.
*/
module Header {
  import opened Wrappers

  class Header {
    /** The raw header value, or `None` when it was never given. */
    var value: Option<string>

    /** A header holding `init`; `None` leaves the value unset. */
    constructor(init: Option<string>)
      ensures value == init
    {
      value := init;
    }

    /** The stored raw value. */
    function GetValue(): Option<string>
      reads this
    {
      value
    }

    /** Stores a new raw value, replacing the old one. */
    method SetValue(raw: string)
      modifies this
      ensures value == Some(raw)
    {
      Parse(raw);
    }

    /** Reads a raw value: it is stored, replacing the old one. */
    method Parse(raw: string)
      modifies this
      ensures value == Some(raw)
    {
      value := Some(raw);
    }
  }

  /** A header built without a value has none. */
  method ValueOfFresh() returns (v: Option<string>)
    ensures v == None
  {
    var h := new Header(None);
    v := h.GetValue();
  }

  /** A header built with a value returns it. */
  method ValueOfGiven(raw: string) returns (v: Option<string>)
    ensures v == Some(raw)
  {
    var h := new Header(Some(raw));
    v := h.GetValue();
  }

  /** Setting a value on a header built without one makes it the value, as does parsing one. */
  method ValueAfterSet(raw: string, parse: bool) returns (v: Option<string>)
    ensures v == Some(raw)
  {
    var h := new Header(None);
    if parse {
      h.Parse(raw);
    } else {
      h.SetValue(raw);
    }
    v := h.GetValue();
  }

  /** The last value stored wins. */
  method LastValueWins(first: string, second: string) returns (v: Option<string>)
    ensures v == Some(second)
  {
    var h := new Header(Some(first));
    h.SetValue(second);
    v := h.GetValue();
  }
}
