/** UTF-8, as `encodeURIComponent` uses it to turn a code point into the
    octets it percent-encodes (section 19.2.6 of ECMA-262, RFC 3629). The
    decoder is the partner the encoder is checked against. */
module Utf8 {
  import opened Wrappers

  type byte = x: int | 0 <= x < 0x100

  predicate IsContinuation(b: byte) {
    0x80 <= b < 0xC0
  }

  /** A code point that is not a surrogate, i.e. one a `char` can hold. */
  predicate IsScalar(n: int) {
    0 <= n < 0xD800 || 0xE000 <= n < 0x11_0000
  }

  /** The one to four octets of the UTF-8 form of `c`; every six-bit group is
      taken with `/ 64` and `% 64`. */
  function EncodeChar(c: char): (bs: seq<byte>)
    ensures 1 <= |bs| <= 4
    ensures |bs| == 1 <==> c as int < 0x80
    ensures |bs| == 2 <==> 0x80 <= c as int < 0x800
    ensures |bs| == 3 <==> 0x800 <= c as int < 0x1_0000
    ensures c as int < 0x80 ==> bs == [c as int]
    ensures 0x80 <= c as int ==> 0xC2 <= bs[0] < 0xF5
    ensures forall i :: 1 <= i < |bs| ==> IsContinuation(bs[i])
  {
    var n := c as int;
    if n < 0x80 then [n]
    else if n < 0x800 then [0xC0 + n / 64, 0x80 + n % 64]
    else if n < 0x1_0000 then [0xE0 + n / 64 / 64, 0x80 + n / 64 % 64, 0x80 + n % 64]
    else [0xF0 + n / 64 / 64 / 64, 0x80 + n / 64 / 64 % 64, 0x80 + n / 64 % 64, 0x80 + n % 64]
  }

  function Encode(s: string): (bs: seq<byte>)
    ensures |s| <= |bs| <= 4 * |s|
  {
    if |s| == 0 then [] else EncodeChar(s[0]) + Encode(s[1..])
  }

  /** The first character of `bs` and the number of octets it took, or None
      when `bs` does not start with a well-formed, shortest-form sequence. */
  function DecodeFirst(bs: seq<byte>): (r: Option<(char, nat)>)
    ensures r.Some? ==> 1 <= r.value.1 <= |bs| && r.value.1 <= 4
  {
    if |bs| == 0 then None
    else
      var b0 := bs[0] as int;
      if b0 < 0x80 then Some((b0 as char, 1))
      else if b0 < 0xC2 then None
      else if b0 < 0xE0 then
        if |bs| < 2 || !IsContinuation(bs[1]) then None
        else
          var n := (b0 - 0xC0) * 64 + (bs[1] as int - 0x80);
          Some((n as char, 2))
      else if b0 < 0xF0 then
        if |bs| < 3 || !IsContinuation(bs[1]) || !IsContinuation(bs[2]) then None
        else
          var n := ((b0 - 0xE0) * 64 + (bs[1] as int - 0x80)) * 64 + (bs[2] as int - 0x80);
          if n < 0x800 || !IsScalar(n) then None else Some((n as char, 3))
      else if b0 < 0xF5 then
        if |bs| < 4 || !IsContinuation(bs[1]) || !IsContinuation(bs[2]) || !IsContinuation(bs[3]) then None
        else
          var n := (((b0 - 0xF0) * 64 + (bs[1] as int - 0x80)) * 64 + (bs[2] as int - 0x80)) * 64 + (bs[3] as int - 0x80);
          if n < 0x1_0000 || !IsScalar(n) then None else Some((n as char, 4))
      else None
  }

  function Decode(bs: seq<byte>): (r: Option<string>)
    decreases |bs|
  {
    if |bs| == 0 then Some("")
    else match DecodeFirst(bs)
      case None => None
      case Some((c, n)) =>
        match Decode(bs[n..])
        case None => None
        case Some(s) => Some([c] + s)
  }

  lemma Digits64(q: int, r: int)
    requires 0 <= r < 64
    ensures (q * 64 + r) / 64 == q && (q * 64 + r) % 64 == r
  {
  }

  lemma Regroup64(n: int)
    requires 0 <= n
    ensures n / 64 * 64 + n % 64 == n
  {
  }

  /** Decoding stops exactly at the end of an encoded character and gives it back. */
  lemma DecodeFirstOfEncoded(c: char, rest: seq<byte>)
    ensures DecodeFirst(EncodeChar(c) + rest) == Some((c, |EncodeChar(c)|))
  {
    var n := c as int;
    var bs := EncodeChar(c) + rest;
    if n < 0x80 {
    } else if n < 0x800 {
      Regroup64(n);
    } else if n < 0x1_0000 {
      Regroup64(n);
      Regroup64(n / 64);
      assert ((n / 64 / 64) * 64 + n / 64 % 64) * 64 + n % 64 == n;
    } else {
      Regroup64(n);
      Regroup64(n / 64);
      Regroup64(n / 64 / 64);
      assert (((n / 64 / 64 / 64) * 64 + n / 64 / 64 % 64) * 64 + n / 64 % 64) * 64 + n % 64 == n;
    }
  }

  lemma DecodedTwo(bs: seq<byte>)
    requires DecodeFirst(bs).Some? && 0xC2 <= bs[0] < 0xE0
    ensures EncodeChar(DecodeFirst(bs).value.0) == bs[..2]
  {
    Digits64(bs[0] as int - 0xC0, bs[1] - 0x80);
  }

  lemma DecodedThree(bs: seq<byte>)
    requires DecodeFirst(bs).Some? && 0xE0 <= bs[0] < 0xF0
    ensures EncodeChar(DecodeFirst(bs).value.0) == bs[..3]
  {
    var m := (bs[0] as int - 0xE0) * 64 + (bs[1] as int - 0x80);
    Digits64(m, bs[2] - 0x80);
    Digits64(bs[0] as int - 0xE0, bs[1] - 0x80);
  }

  lemma DecodedFour(bs: seq<byte>)
    requires DecodeFirst(bs).Some? && 0xF0 <= bs[0]
    ensures EncodeChar(DecodeFirst(bs).value.0) == bs[..4]
  {
    var m1 := (bs[0] as int - 0xF0) * 64 + (bs[1] as int - 0x80);
    var m2 := m1 * 64 + (bs[2] as int - 0x80);
    Digits64(m2, bs[3] - 0x80);
    Digits64(m1, bs[2] - 0x80);
    Digits64(bs[0] as int - 0xF0, bs[1] - 0x80);
  }

  /** Whatever DecodeFirst accepts is exactly the encoding of the character it
      returns: the decoder admits no second spelling of a character. */
  lemma DecodeFirstIsEncoding(bs: seq<byte>)
    requires DecodeFirst(bs).Some?
    ensures EncodeChar(DecodeFirst(bs).value.0) == bs[..DecodeFirst(bs).value.1]
  {
    if bs[0] < 0x80 {
      assert DecodeFirst(bs).value == (bs[0] as char, 1);
    } else if bs[0] < 0xE0 {
      DecodedTwo(bs);
    } else if bs[0] < 0xF0 {
      DecodedThree(bs);
    } else {
      DecodedFour(bs);
    }
  }

  /** Decode undoes Encode. */
  lemma {:induction false} DecodeEncode(s: string)
    ensures Decode(Encode(s)) == Some(s)
  {
    if |s| > 0 {
      var head := EncodeChar(s[0]);
      var bs := Encode(s);
      DecodeFirstOfEncoded(s[0], Encode(s[1..]));
      assert bs[|head|..] == Encode(s[1..]);
      DecodeEncode(s[1..]);
      assert [s[0]] + s[1..] == s;
    }
  }

  lemma SplitAt(bs: seq<byte>, n: nat)
    requires n <= |bs|
    ensures bs[..n] + bs[n..] == bs
  {
  }

  lemma DecodeCons(bs: seq<byte>)
    requires |bs| > 0 && Decode(bs).Some?
    ensures DecodeFirst(bs).Some?
    ensures Decode(bs[DecodeFirst(bs).value.1..]).Some?
    ensures Decode(bs).value ==
      [DecodeFirst(bs).value.0] + Decode(bs[DecodeFirst(bs).value.1..]).value
  {
  }

  /** Encode undoes Decode: an octet string the decoder accepts has exactly
      one preimage. */
  lemma {:induction false} EncodeDecode(bs: seq<byte>)
    requires Decode(bs).Some?
    ensures Encode(Decode(bs).value) == bs
    decreases |bs|
  {
    if |bs| > 0 {
      DecodeCons(bs);
      var (c, n) := DecodeFirst(bs).value;
      var t := Decode(bs[n..]).value;
      var s := Decode(bs).value;
      DecodeFirstIsEncoding(bs);
      EncodeDecode(bs[n..]);
      assert s[0] == c && s[1..] == t;
      assert Encode(s) == EncodeChar(c) + Encode(t);
      SplitAt(bs, n);
    }
  }
}
