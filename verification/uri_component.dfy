/** `encodeURIComponent` (section 19.2.6 of ECMA-262, percent-encoding as in
    section 2.1 of RFC 3986), the decoder that undoes it, and the reading of a
    query string into name/value pairs that a relay URL goes through on its
    way back to the handler. */
module UriComponent {
  import opened Wrappers
  import opened Text
  import Utf8

  /** The characters `encodeURIComponent` leaves alone: ASCII letters and
      digits and `- _ . ! ~ * ' ( )`. */
  predicate IsUnreserved(c: char) {
    || ('A' <= c <= 'Z') || ('a' <= c <= 'z') || ('0' <= c <= '9')
    || c == '-' || c == '_' || c == '.' || c == '!' || c == '~'
    || c == '*' || c == '\'' || c == '(' || c == ')'
  }

  const HexDigits: string := "0123456789ABCDEF"

  /** The value of a hexadecimal digit of either case. */
  function HexValue(c: char): Option<int> {
    if '0' <= c <= '9' then Some(c as int - '0' as int)
    else if 'A' <= c <= 'F' then Some(c as int - 'A' as int + 10)
    else if 'a' <= c <= 'f' then Some(c as int - 'a' as int + 10)
    else None
  }

  /** One octet: kept as its character when that is unreserved ASCII,
      otherwise `%` and two upper-case hexadecimal digits. */
  function EncodeByte(b: Utf8.byte): (s: string)
    ensures |s| == 1 || |s| == 3
    ensures forall i :: 0 <= i < |s| ==> IsUnreserved(s[i]) || s[i] == '%'
  {
    if b < 0x80 && IsUnreserved(b as char) then [b as char]
    else
      HexDigitsUnreserved();
      ['%', HexDigits[b / 16], HexDigits[b % 16]]
  }

  lemma HexDigitsUnreserved()
    ensures forall k :: 0 <= k < |HexDigits| ==> IsUnreserved(HexDigits[k])
  {
  }

  function EncodeBytes(bs: seq<Utf8.byte>): (s: string)
    ensures |bs| <= |s| <= 3 * |bs|
    ensures forall i :: 0 <= i < |s| ==> IsUnreserved(s[i]) || s[i] == '%'
  {
    if |bs| == 0 then "" else EncodeByte(bs[0]) + EncodeBytes(bs[1..])
  }

  /** `encodeURIComponent(s)`: the UTF-8 octets of `s`, each written out as
      EncodeByte says. Characters outside ASCII never reach the unreserved
      branch, since their octets are all at least 0x80. The result uses only
      unreserved characters and `%`. */
  function Encode(s: string): (r: string)
    ensures forall i :: 0 <= i < |r| ==> IsUnreserved(r[i]) || r[i] == '%'
    ensures |s| <= |r|
  {
    EncodeBytes(Utf8.Encode(s))
  }

  /** The octets a percent-encoded string stands for: `%XX` is one octet and
      any other character stands for its own UTF-8 octets. None for a `%` that
      is not followed by two hexadecimal digits. */
  function DecodeBytes(s: string): (r: Option<seq<Utf8.byte>>)
    decreases |s|
  {
    if |s| == 0 then Some([])
    else if s[0] == '%' then
      if |s| < 3 || HexValue(s[1]).None? || HexValue(s[2]).None? then None
      else match DecodeBytes(s[3..])
        case None => None
        case Some(rest) => Some([HexValue(s[1]).value * 16 + HexValue(s[2]).value] + rest)
    else match DecodeBytes(s[1..])
      case None => None
      case Some(rest) => Some(Utf8.EncodeChar(s[0]) + rest)
  }

  /** Percent-decoding followed by UTF-8 decoding. */
  function Decode(s: string): Option<string> {
    match DecodeBytes(s)
    case None => None
    case Some(bs) => Utf8.Decode(bs)
  }

  lemma HexRoundTrip(b: Utf8.byte)
    ensures HexValue(HexDigits[b / 16]) == Some(b / 16)
    ensures HexValue(HexDigits[b % 16]) == Some(b % 16)
  {
  }

  lemma DecodeBytesStep(b: Utf8.byte, t: string, rest: seq<Utf8.byte>)
    requires DecodeBytes(t) == Some(rest)
    ensures DecodeBytes(EncodeByte(b) + t) == Some([b] + rest)
  {
    if b < 0x80 && IsUnreserved(b as char) {
      DecodeKeptStep(b, t, rest);
    } else {
      DecodeEscapedStep(b, t, rest);
    }
  }

  lemma DecodeKeptStep(b: Utf8.byte, t: string, rest: seq<Utf8.byte>)
    requires b < 0x80 && IsUnreserved(b as char)
    requires DecodeBytes(t) == Some(rest)
    ensures DecodeBytes([b as char] + t) == Some([b] + rest)
  {
    var s := [b as char] + t;
    assert s[0] == b as char && s[1..] == t;
  }

  lemma DecodeEscapedStep(b: Utf8.byte, t: string, rest: seq<Utf8.byte>)
    requires DecodeBytes(t) == Some(rest)
    ensures DecodeBytes(['%', HexDigits[b / 16], HexDigits[b % 16]] + t) == Some([b] + rest)
  {
    var s := ['%', HexDigits[b / 16], HexDigits[b % 16]] + t;
    HexRoundTrip(b);
    assert s[0] == '%' && s[1] == HexDigits[b / 16] && s[2] == HexDigits[b % 16];
    assert s[3..] == t;
  }

  lemma {:induction false} DecodeBytesEncodeBytes(bs: seq<Utf8.byte>)
    ensures DecodeBytes(EncodeBytes(bs)) == Some(bs)
  {
    if |bs| > 0 {
      DecodeBytesEncodeBytes(bs[1..]);
      DecodeBytesStep(bs[0], EncodeBytes(bs[1..]), bs[1..]);
      assert [bs[0]] + bs[1..] == bs;
    }
  }

  /** decodeURIComponent-style decoding gives back what Encode was given. */
  lemma DecodeEncode(s: string)
    ensures Decode(Encode(s)) == Some(s)
  {
    DecodeBytesEncodeBytes(Utf8.Encode(s));
    Utf8.DecodeEncode(s);
  }

  lemma UnreservedIsInert(c: char)
    requires IsUnreserved(c) || c == '%'
    ensures c != '&' && c != '=' && c != '?' && c != '#' && !IsSpace(c)
  {
  }

  /** An encoded component cannot end a query parameter, start a fragment,
      or break a line: it holds no `&`, `=`, `?`, `#` or white space. */
  lemma EncodedIsInert(s: string)
    ensures forall i :: 0 <= i < |Encode(s)| ==>
      var c := Encode(s)[i];
      c != '&' && c != '=' && c != '?' && c != '#' && !IsSpace(c)
  {
    var e := Encode(s);
    forall i | 0 <= i < |e|
      ensures e[i] != '&' && e[i] != '=' && e[i] != '?' && e[i] != '#' && !IsSpace(e[i])
    {
      UnreservedIsInert(e[i]);
    }
  }

  lemma EncodeBytesCons(x: Utf8.byte, t: seq<Utf8.byte>)
    ensures EncodeBytes([x] + t) == EncodeByte(x) + EncodeBytes(t)
  {
    assert ([x] + t)[0] == x && ([x] + t)[1..] == t;
  }

  lemma ConsBytes(a: seq<Utf8.byte>, b: seq<Utf8.byte>)
    requires |a| > 0
    ensures a == [a[0]] + a[1..] && a + b == [a[0]] + (a[1..] + b)
  {
  }

  lemma {:induction false} EncodeBytesAppend(a: seq<Utf8.byte>, b: seq<Utf8.byte>)
    ensures EncodeBytes(a + b) == EncodeBytes(a) + EncodeBytes(b)
    decreases |a|
  {
    if |a| > 0 {
      var x, t := a[0], a[1..];
      EncodeBytesAppend(t, b);
      ConsBytes(a, b);
      EncodeBytesCons(x, t + b);
      EncodeBytesCons(x, t);
      AppendAssoc(EncodeByte(x), EncodeBytes(t), EncodeBytes(b));
    } else {
      assert a + b == b;
    }
  }

  lemma AppendAssoc(x: string, y: string, z: string)
    ensures x + (y + z) == (x + y) + z
  {
  }

  /** `encodeURIComponent` works character by character. */
  lemma EncodeCons(s: string)
    requires |s| > 0
    ensures Encode(s) == Encode([s[0]]) + Encode(s[1..])
  {
    var first := Utf8.EncodeChar(s[0]);
    var rest := Utf8.Encode(s[1..]);
    assert Utf8.Encode(s) == first + rest;
    assert [s[0]][1..] == [];
    assert Utf8.Encode([s[0]]) == first + [] == first;
    EncodeBytesAppend(first, rest);
  }

  /** An ASCII character is written as its one octet is. */
  lemma EncodeAscii(c: char)
    requires c < '\U{0080}'
    ensures Encode([c]) == EncodeByte(c as int)
  {
    assert [c][1..] == [];
    assert Utf8.Encode([c]) == [c as int];
    assert [c as int][1..] == [];
  }

  /** Unreserved ASCII passes through `encodeURIComponent` unchanged. */
  lemma {:induction false} EncodeKeepsUnreserved(s: string)
    requires forall i :: 0 <= i < |s| ==> s[i] < '\U{0080}' && IsUnreserved(s[i])
    ensures Encode(s) == s
    decreases |s|
  {
    if |s| > 0 {
      EncodeCons(s);
      EncodeAscii(s[0]);
      EncodeKeepsUnreserved(s[1..]);
      assert [s[0]] + s[1..] == s;
    }
  }

  /** Any other ASCII character becomes `%` and its two upper-case
      hexadecimal digits. */
  lemma EncodeEscapesReserved(c: char)
    requires c < '\U{0080}' && !IsUnreserved(c)
    ensures Encode([c]) == ['%', HexDigits[c as int / 16], HexDigits[c as int % 16]]
  {
    EncodeAscii(c);
  }

  /** The position of the first `c` in `s`, or `|s|` when there is none. */
  function IndexOf(s: string, c: char): (k: nat)
    ensures k <= |s|
    ensures forall i :: 0 <= i < k ==> s[i] != c
    ensures k < |s| ==> s[k] == c
  {
    if |s| == 0 || s[0] == c then 0 else 1 + IndexOf(s[1..], c)
  }

  /** The pieces of `s` between occurrences of `c`, like `s.split(c)`. */
  function SplitOn(s: string, c: char): (parts: seq<string>)
    ensures |parts| > 0
    decreases |s|
  {
    var k := IndexOf(s, c);
    if k == |s| then [s] else [s[..k]] + SplitOn(s[k + 1..], c)
  }

  /** The query of a URL: the fragment goes from the first `#` on, and the
      query is what follows the first `?` before it, if there is one. */
  function QueryOf(url: string): (q: string)
    ensures NoChar(q, '#')
  {
    var beforeFragment := url[..IndexOf(url, '#')];
    var k := IndexOf(beforeFragment, '?');
    if k == |beforeFragment| then "" else beforeFragment[k + 1..]
  }

  /** One `name=value` pair, cut at its first `=`; a part without `=` is a
      name with an empty value. */
  function Parameter(part: string): (string, string) {
    var k := IndexOf(part, '=');
    if k == |part| then (part, "") else (part[..k], part[k + 1..])
  }

  /** A query string read as `name=value` pairs, values left encoded. */
  function Parameters(query: string): seq<(string, string)> {
    var parts := SplitOn(query, '&');
    seq(|parts|, i requires 0 <= i < |parts| => Parameter(parts[i]))
  }

  lemma {:induction false} IndexOfPrefixed(a: string, c: char, b: string)
    requires NoChar(a, c)
    ensures IndexOf(a + [c] + b, c) == |a|
  {
    if |a| > 0 {
      IndexOfPrefixed(a[1..], c, b);
      assert (a + [c] + b)[1..] == a[1..] + [c] + b;
    }
  }

  lemma IndexOfAbsent(a: string, c: char)
    requires NoChar(a, c)
    ensures IndexOf(a, c) == |a|
  {
  }

  lemma ParameterOf(name: string, value: string)
    requires NoChar(name, '=')
    ensures Parameter(name + "=" + value) == (name, value)
  {
    var part := name + "=" + value;
    IndexOfPrefixed(name, '=', value);
    assert part[..|name|] == name;
    assert part[|name| + 1..] == value;
  }

  lemma SplitOnTwo(p1: string, p2: string, c: char)
    requires NoChar(p1, c) && NoChar(p2, c)
    ensures var parts := SplitOn(p1 + [c] + p2, c);
      |parts| == 2 && parts[0] == p1 && parts[1] == p2
  {
    var q := p1 + [c] + p2;
    IndexOfPrefixed(p1, c, p2);
    IndexOfAbsent(p2, c);
    assert q[..|p1|] == p1;
    assert q[|p1| + 1..] == p2;
  }

  lemma ParametersOfTwo(p1: string, p2: string)
    requires NoChar(p1, '&') && NoChar(p2, '&')
    ensures var ps := Parameters(p1 + ['&'] + p2);
      |ps| == 2 && ps[0] == Parameter(p1) && ps[1] == Parameter(p2)
  {
    SplitOnTwo(p1, p2, '&');
  }

  lemma PairNoChar(name: string, value: string, c: char)
    requires c != '=' && NoChar(name, c) && NoChar(value, c)
    ensures NoChar(name + "=" + value, c)
  {
    NoneOfAppend(name, "=", Just(c));
    NoneOfAppend(name + "=", value, Just(c));
  }

  lemma PairsRegroup(n1: string, v1: string, n2: string, v2: string)
    ensures n1 + "=" + v1 + "&" + n2 + "=" + v2 == (n1 + "=" + v1) + ['&'] + (n2 + "=" + v2)
  {
  }

  /** A query made of two `name=value` pairs whose names contain no `&` or
      `=` and whose values contain no `&` reads back as exactly those two
      pairs. */
  lemma TwoParameters(n1: string, v1: string, n2: string, v2: string)
    requires NoChar(n1, '&') && NoChar(n1, '=') && NoChar(n2, '&') && NoChar(n2, '=')
    requires NoChar(v1, '&') && NoChar(v2, '&')
    ensures var ps := Parameters(n1 + "=" + v1 + "&" + n2 + "=" + v2);
      |ps| == 2 && ps[0] == (n1, v1) && ps[1] == (n2, v2)
  {
    PairNoChar(n1, v1, '&');
    PairNoChar(n2, v2, '&');
    PairsRegroup(n1, v1, n2, v2);
    ParametersOfTwo(n1 + "=" + v1, n2 + "=" + v2);
    ParameterOf(n1, v1);
    ParameterOf(n2, v2);
  }
}
