/**
 * Sender extraction from a fetched message (`get_sender` in main.py).
 * The address parser (`email.utils.parseaddr(...)[1]`) is not modelled: it is
 * passed in as an arbitrary function from header value to address.
 */
module Headers {
  import opened Wrappers

  /** One entry of `msg['payload']['headers']`. */
  datatype Header = Header(name: string, value: string)

  /** `str.lower()` on one character, for the ASCII letters. */
  function LowerChar(c: char): char
  {
    if 'A' <= c <= 'Z' then (c as int + 32) as char else c
  }

  /** `str.lower()` on a whole string. */
  function Lower(s: string): string
  {
    seq(|s|, i requires 0 <= i < |s| => LowerChar(s[i]))
  }

  /** The header test of `get_sender`: the name lowercases to "from". */
  predicate IsFrom(name: string)
  {
    Lower(name) == "from"
  }

  /** Specification of `get_sender`: the parsed value of the first `From` header, if any. */
  function FirstFrom(headers: seq<Header>, parse: string -> string): Option<string>
  {
    if headers == [] then None
    else if IsFrom(headers[0].name) then Some(parse(headers[0].value))
    else FirstFrom(headers[1..], parse)
  }

  /** The test accepts exactly the capitalisations of "from". */
  lemma AnyCaseOfFrom(name: string)
    ensures IsFrom(name) <==>
      |name| == 4 && name[0] in "fF" && name[1] in "rR" && name[2] in "oO" && name[3] in "mM"
  {
    if |name| == 4 {
      assert Lower(name) == [LowerChar(name[0]), LowerChar(name[1]), LowerChar(name[2]), LowerChar(name[3])];
    } else {
      assert |Lower(name)| != 4;
    }
  }

  /** When a `From` header exists, the result is the parsed value of the first one. */
  lemma {:induction false} FirstFromIsFirst(headers: seq<Header>, parse: string -> string, i: nat)
    requires i < |headers| && IsFrom(headers[i].name)
    requires forall j :: 0 <= j < i ==> !IsFrom(headers[j].name)
    ensures FirstFrom(headers, parse) == Some(parse(headers[i].value))
  {
    if i > 0 {
      assert !IsFrom(headers[0].name);
      FirstFromIsFirst(headers[1..], parse, i - 1);
    }
  }

  /** The result is `None` exactly when no header is named `From`. */
  lemma {:induction false} FirstFromNone(headers: seq<Header>, parse: string -> string)
    ensures FirstFrom(headers, parse) == None <==> forall i :: 0 <= i < |headers| ==> !IsFrom(headers[i].name)
  {
    if headers != [] && !IsFrom(headers[0].name) {
      FirstFromNone(headers[1..], parse);
      assert forall i :: 1 <= i < |headers| ==> headers[i] == headers[1..][i - 1];
    }
  }

  /** `get_sender`: scans the headers and returns at the first `From`. */
  method GetSender(headers: seq<Header>, parse: string -> string) returns (sender: Option<string>)
    ensures sender == FirstFrom(headers, parse)
  {
    var i := 0;
    while i < |headers|
      invariant 0 <= i <= |headers|
      invariant FirstFrom(headers[i..], parse) == FirstFrom(headers, parse)
    {
      if IsFrom(headers[i].name) {
        return Some(parse(headers[i].value));
      }
      assert headers[i..][1..] == headers[i + 1..];
      i := i + 1;
    }
    return None;
  }
}
