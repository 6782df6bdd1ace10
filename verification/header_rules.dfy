/** Header records and the fixed name lists both revisions of the proxy use to
    decide where a header goes. */
module HeaderRules {

  /** One header as enumerated from a header collection: a name and its values,
      in order (a `KeyValuePair<string, StringValues>`). */
  datatype Header = Header(name: string, values: seq<string>)

  const ProxyConnection: string := "Proxy-Connection"
  const ContentLength: string := "Content-Length"
  const ContentType: string := "Content-Type"
  const TransferEncoding: string := "Transfer-Encoding"

  /** Request headers that only concern the hop between client and proxy. */
  const ExcludedRequestHeaders: seq<string> := [ProxyConnection]

  /** Request headers that must be set on the outbound content, not the message. */
  const ContentRequestHeaders: seq<string> := [ContentLength, ContentType]

  /** The three destinations a request header name can have. */
  datatype HeaderClass = HopOnly | ContentDescriptive | PassThrough

  /** The classification of a request header name. Membership in a `string[]`
      is ordinal and case-sensitive, so `proxy-connection` is pass-through. */
  function Classify(name: string): (c: HeaderClass)
    ensures c == HopOnly <==> name == ProxyConnection
    ensures c == ContentDescriptive <==> name == ContentLength || name == ContentType
  {
    if name in ExcludedRequestHeaders then HopOnly
    else if name in ContentRequestHeaders then ContentDescriptive
    else PassThrough
  }

  /** The filter that selects headers for the outbound content. */
  predicate IsContentRequestHeader(h: Header): (b: bool)
    ensures b <==> h.name == ContentLength || h.name == ContentType
  {
    h.name in ContentRequestHeaders
  }

  /** The filter that selects headers for the outbound message. */
  predicate IsForwardedRequestHeader(h: Header): (b: bool)
    ensures b <==> h.name != ProxyConnection && h.name != ContentLength && h.name != ContentType
  {
    h.name !in ExcludedRequestHeaders && h.name !in ContentRequestHeaders
  }

  /** The two request filters agree with the classification: the content filter
      picks exactly the content-descriptive names, the message filter exactly the
      pass-through ones, so no name is picked by both and hop-only names by neither. */
  lemma RequestFiltersMatchClassify(h: Header)
    ensures IsContentRequestHeader(h) <==> Classify(h.name) == ContentDescriptive
    ensures IsForwardedRequestHeader(h) <==> Classify(h.name) == PassThrough
    ensures !(IsContentRequestHeader(h) && IsForwardedRequestHeader(h))
  {
    assert ProxyConnection[0] != ContentLength[0];
    assert ProxyConnection[0] != ContentType[0];
  }

  /** ASCII upper-casing of one character. */
  function UpperAscii(c: char): (u: char)
    ensures 'a' <= c <= 'z' ==> u as int == c as int - 32
    ensures !('a' <= c <= 'z') ==> u == c
  {
    if 'a' <= c <= 'z' then (c as int - 32) as char else c
  }

  /** ASCII upper-casing of a string, character by character. */
  function ToUpperAscii(s: string): (u: string)
    ensures |u| == |s|
    ensures forall i :: 0 <= i < |s| ==> u[i] == UpperAscii(s[i])
  {
    seq(|s|, i requires 0 <= i < |s| => UpperAscii(s[i]))
  }

  /** Ordinal comparison ignoring case over ASCII letters. */
  predicate EqualsIgnoreCase(a: string, b: string) {
    ToUpperAscii(a) == ToUpperAscii(b)
  }

  /** The response header the capture step must not keep, in any letter case. */
  predicate IsTransferEncoding(h: Header) {
    EqualsIgnoreCase(h.name, TransferEncoding)
  }

  /** The filter the capture step applies to upstream message headers. */
  predicate IsKeptResponseHeader(h: Header) {
    !IsTransferEncoding(h)
  }

  /** Whether `name` equals, ignoring case, some name in `names`: the key check
      of a case-insensitive header dictionary. */
  predicate ContainsIgnoreCase(names: seq<string>, name: string) {
    exists i :: 0 <= i < |names| && EqualsIgnoreCase(names[i], name)
  }

  /** No two headers of `hs` share a name, ignoring case. */
  predicate DistinctNames(hs: seq<Header>) {
    forall i, j :: 0 <= i < j < |hs| ==> !EqualsIgnoreCase(hs[i].name, hs[j].name)
  }

  /** Two characters are the same letter in different case, or the same character. */
  predicate SameIgnoringAsciiCase(a: char, b: char) {
    || a == b
    || ('a' <= a <= 'z' && b as int == a as int - 32)
    || ('A' <= a <= 'Z' && b as int == a as int + 32)
  }

  lemma UpperAsciiAgrees(a: char, b: char)
    ensures UpperAscii(a) == UpperAscii(b) <==> SameIgnoringAsciiCase(a, b)
  {
  }

  /** A header is a `Transfer-Encoding` exactly when its name has that length
      and matches it character by character up to the case of letters: every
      letter case is caught, and any other character or length is not. */
  lemma TransferEncodingMatch(h: Header)
    ensures IsTransferEncoding(h) <==>
              |h.name| == |TransferEncoding|
              && forall i :: 0 <= i < |h.name| ==> SameIgnoringAsciiCase(h.name[i], TransferEncoding[i])
  {
    var u, v := ToUpperAscii(h.name), ToUpperAscii(TransferEncoding);
    if |h.name| == |TransferEncoding| {
      forall i | 0 <= i < |h.name|
        ensures u[i] == v[i] <==> SameIgnoringAsciiCase(h.name[i], TransferEncoding[i])
      {
        UpperAsciiAgrees(h.name[i], TransferEncoding[i]);
      }
      if forall i :: 0 <= i < |h.name| ==> SameIgnoringAsciiCase(h.name[i], TransferEncoding[i]) {
        assert u == v;
      }
    }
  }

  /** Two spellings as illustrations of the comparison `TransferEncodingMatch`
      characterises: all lower case is caught, an underscore is not. No other
      proof rests on them. */
  lemma TransferEncodingSpellings()
    ensures IsTransferEncoding(Header("transfer-encoding", []))
    ensures !IsTransferEncoding(Header("Transfer_Encoding", []))
  {
    var upper := "TRANSFER-ENCODING";
    assert ToUpperAscii("transfer-encoding") == upper by {
      assert forall i :: 0 <= i < |upper| ==> UpperAscii("transfer-encoding"[i]) == upper[i];
    }
    assert ToUpperAscii(TransferEncoding) == upper by {
      assert forall i :: 0 <= i < |upper| ==> UpperAscii(TransferEncoding[i]) == upper[i];
    }
    assert ToUpperAscii("Transfer_Encoding")[8] == '_';
  }
}
