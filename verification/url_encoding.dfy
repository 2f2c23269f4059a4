/** The form body of a PUT or DELETE request: `rawurlencode(k)=rawurlencode(v)`
    pairs joined by `&`.

    A Dafny string here is Unicode text; the PHP byte string holding it is
    its UTF-8 encoding, and `rawurlencode` works on those bytes. Only the
    unreserved characters of section 2.3 of RFC 3986 (ASCII letters, digits,
    `-`, `.`, `_`, `~`) are left as they are; every other byte becomes `%`
    followed by two upper-case hexadecimal digits. */
module UrlEncoding {
  import opened Wrappers
  import opened Text

  type Byte = x: int | 0 <= x < 256

  /** The code point a well-formed UTF-8 sequence of one to four bytes spells. */
  function ScalarOf(bs: seq<Byte>): int
    requires 1 <= |bs| <= 4
  {
    var b: seq<int> := bs;
    if |b| == 1 then b[0]
    else if |b| == 2 then (b[0] - 0xC0) * 64 + (b[1] - 0x80)
    else if |b| == 3 then (b[0] - 0xE0) * 4096 + (b[1] - 0x80) * 64 + (b[2] - 0x80)
    else (b[0] - 0xF0) * 262144 + (b[1] - 0x80) * 4096 + (b[2] - 0x80) * 64 + (b[3] - 0x80)
  }

  /** The UTF-8 encoding of one character: the lead byte tells the length,
      every other byte is a continuation byte, and the bytes spell the
      character's code point back. */
  function Utf8Char(c: char): (bs: seq<Byte>)
    ensures 1 <= |bs| <= 4
    ensures |bs| == 1 <==> c as int < 0x80
    ensures |bs| == 2 <==> 0x80 <= c as int < 0x800
    ensures |bs| == 3 <==> 0x800 <= c as int < 0x10000
    ensures |bs| == 4 <==> 0x10000 <= c as int
    ensures |bs| == 1 ==> bs[0] < 0x80
    ensures |bs| == 2 ==> 0xC0 <= bs[0] < 0xE0
    ensures |bs| == 3 ==> 0xE0 <= bs[0] < 0xF0
    ensures |bs| == 4 ==> 0xF0 <= bs[0] < 0xF8
    ensures forall i :: 1 <= i < |bs| ==> 0x80 <= bs[i] < 0xC0
    ensures ScalarOf(bs) == c as int
  {
    var n := c as int;
    if n < 0x80 then [n]
    else if n < 0x800 then Utf8Two(n)
    else if n < 0x10000 then Utf8Three(n)
    else Utf8Four(n)
  }

  function Utf8Two(n: int): (bs: seq<Byte>)
    requires 0x80 <= n < 0x800
    ensures |bs| == 2 && 0xC0 <= bs[0] < 0xE0 && 0x80 <= bs[1] < 0xC0
    ensures ScalarOf(bs) == n
  {
    var q, r := n / 64, n % 64;
    assert n == q * 64 + r;
    [0xC0 + q, 0x80 + r]
  }

  function Utf8Three(n: int): (bs: seq<Byte>)
    requires 0x800 <= n < 0x10000
    ensures |bs| == 3 && 0xE0 <= bs[0] < 0xF0
    ensures 0x80 <= bs[1] < 0xC0 && 0x80 <= bs[2] < 0xC0
    ensures ScalarOf(bs) == n
  {
    var q, r := n / 64, n % 64;
    var q2, r2 := q / 64, q % 64;
    assert n == q * 64 + r;
    assert q == q2 * 64 + r2;
    assert q2 < 16;
    [0xE0 + q2, 0x80 + r2, 0x80 + r]
  }

  function Utf8Four(n: int): (bs: seq<Byte>)
    requires 0x10000 <= n < 0x110000
    ensures |bs| == 4 && 0xF0 <= bs[0] < 0xF8
    ensures 0x80 <= bs[1] < 0xC0 && 0x80 <= bs[2] < 0xC0 && 0x80 <= bs[3] < 0xC0
    ensures ScalarOf(bs) == n
  {
    var q, r := n / 64, n % 64;
    var q2, r2 := q / 64, q % 64;
    var q3, r3 := q2 / 64, q2 % 64;
    assert n == q * 64 + r;
    assert q == q2 * 64 + r2;
    assert q2 == q3 * 64 + r3;
    assert q3 < 8;
    [0xF0 + q3, 0x80 + r3, 0x80 + r2, 0x80 + r]
  }

  /** The bytes of the PHP string holding `s`. */
  function Utf8(s: string): (bs: seq<Byte>)
    ensures |bs| >= |s|
  {
    if |s| == 0 then [] else Utf8Char(s[0]) + Utf8(s[1..])
  }

  /** ASCII text is its own byte string. */
  lemma {:induction false} Utf8Ascii(s: string)
    requires forall i :: 0 <= i < |s| ==> s[i] as int < 0x80
    ensures |Utf8(s)| == |s|
    ensures forall i :: 0 <= i < |s| ==> Utf8(s)[i] == s[i] as int
  {
    if |s| > 0 {
      Utf8Ascii(s[1..]);
    }
  }

  /** The unreserved characters of section 2.3 of RFC 3986. */
  predicate IsUnreserved(c: char) {
    ('A' <= c <= 'Z') || ('a' <= c <= 'z') || ('0' <= c <= '9')
    || c == '-' || c == '.' || c == '_' || c == '~'
  }

  /** A digit `rawurlencode` writes: 0-9 or upper-case A-F. */
  predicate IsUpperHex(c: char) {
    ('0' <= c <= '9') || ('A' <= c <= 'F')
  }

  /** A hexadecimal digit a decoder accepts, in either case. */
  predicate IsHex(c: char) {
    ('0' <= c <= '9') || ('A' <= c <= 'F') || ('a' <= c <= 'f')
  }

  function HexValue(c: char): (d: nat)
    requires IsHex(c)
    ensures d < 16
  {
    if '0' <= c <= '9' then c as int - '0' as int
    else if 'A' <= c <= 'F' then c as int - 'A' as int + 10
    else c as int - 'a' as int + 10
  }

  /** The upper-case hexadecimal digit of `d`. */
  function HexDigit(d: nat): (c: char)
    requires d < 16
    ensures IsUnreserved(c) && IsUpperHex(c) && IsHex(c)
    ensures HexValue(c) == d
  {
    if d < 10 then ('0' as int + d) as char else ('A' as int + d - 10) as char
  }

  /** `rawurlencode` of one byte: an unreserved character stays as it is;
      any other byte becomes `%` and its value in two upper-case
      hexadecimal digits. */
  function EncodeByte(b: Byte): (r: string)
    ensures forall i :: 0 <= i < |r| ==> IsUnreserved(r[i]) || r[i] == '%'
    ensures |r| == 1 <==> IsUnreserved(b as char)
    ensures |r| == 1 ==> r[0] as int == b
    ensures |r| != 1 ==>
      && |r| == 3 && r[0] == '%' && IsUpperHex(r[1]) && IsUpperHex(r[2])
      && HexValue(r[1]) * 16 + HexValue(r[2]) == b
  {
    if IsUnreserved(b as char) then [b as char]
    else [ '%', HexDigit(b / 16), HexDigit(b % 16) ]
  }

  /** `rawurlencode` of a byte string: the output is unreserved characters and
      `%` only, so neither `&` nor `=` can appear in it. */
  function PercentEncode(bs: seq<Byte>): (r: string)
    ensures forall i :: 0 <= i < |r| ==> IsUnreserved(r[i]) || r[i] == '%'
  {
    if |bs| == 0 then "" else EncodeByte(bs[0]) + PercentEncode(bs[1..])
  }

  /** Bytes are encoded one at a time: the encoding of a concatenation is
      the concatenation of the encodings. */
  lemma {:induction false} PercentEncodeAppend(a: seq<Byte>, b: seq<Byte>)
    ensures PercentEncode(a + b) == PercentEncode(a) + PercentEncode(b)
  {
    if |a| == 0 {
      assert a + b == b;
    } else {
      assert (a + b)[0] == a[0] && (a + b)[1..] == a[1..] + b;
      PercentEncodeAppend(a[1..], b);
    }
  }

  /** Bytes none of which is an unreserved character are all escaped: three
      characters each, starting with `%`. */
  lemma {:induction false} PercentEncodeReserved(bs: seq<Byte>)
    requires forall i :: 0 <= i < |bs| ==> !IsUnreserved(bs[i] as char)
    ensures |PercentEncode(bs)| == 3 * |bs|
    ensures |bs| > 0 ==> PercentEncode(bs)[0] == '%'
  {
    if |bs| > 0 {
      PercentEncodeReserved(bs[1..]);
    }
  }

  /** PHP `rawurlencode(s)`. */
  function RawUrlEncode(s: string): (r: string)
    ensures '&' !in r && '=' !in r
  {
    PercentEncode(Utf8(s))
  }

  /** The UTF-8 bytes of a concatenation are the concatenation of the bytes. */
  lemma {:induction false} Utf8Append(s: string, t: string)
    ensures Utf8(s + t) == Utf8(s) + Utf8(t)
  {
    if |s| == 0 {
      assert s + t == t;
    } else {
      var u := s + t;
      assert u[0] == s[0] && u[1..] == s[1..] + t;
      Utf8Append(s[1..], t);
      assert Utf8(u) == Utf8Char(s[0]) + (Utf8(s[1..]) + Utf8(t));
      assert Utf8(s) == Utf8Char(s[0]) + Utf8(s[1..]);
    }
  }

  /** `rawurlencode` of a concatenation is the concatenation of the encodings. */
  lemma RawUrlEncodeAppend(s: string, t: string)
    ensures RawUrlEncode(s + t) == RawUrlEncode(s) + RawUrlEncode(t)
  {
    Utf8Append(s, t);
    PercentEncodeAppend(Utf8(s), Utf8(t));
  }

  /** `rawurlencode` works character by character: an unreserved character
      is kept, and any other character becomes `%HH` for each of its UTF-8
      bytes. */
  lemma RawUrlEncodeChar(c: char, rest: string)
    ensures IsUnreserved(c) ==> RawUrlEncode([c] + rest) == [c] + RawUrlEncode(rest)
    ensures !IsUnreserved(c) ==>
      var e := RawUrlEncode([c] + rest);
      && |e| == 3 * |Utf8Char(c)| + |RawUrlEncode(rest)|
      && e[0] == '%'
      && e[3 * |Utf8Char(c)|..] == RawUrlEncode(rest)
  {
    var bs := Utf8Char(c);
    assert Utf8([c] + rest) == bs + Utf8(rest) by {
      assert ([c] + rest)[1..] == rest;
    }
    PercentEncodeAppend(bs, Utf8(rest));
    if IsUnreserved(c) {
      assert bs == [c as int];
    } else {
      assert forall i :: 0 <= i < |bs| ==> !IsUnreserved(bs[i] as char) by {
        if |bs| == 1 {
          assert bs[0] == c as int;
        }
      }
      PercentEncodeReserved(bs);
    }
  }

  /** Reads back a percent-encoded string; None on anything `rawurlencode`
      could not have produced. */
  function PercentDecode(t: string): Option<seq<Byte>>
  {
    if |t| == 0 then Some([])
    else if t[0] == '%' then
      if |t| >= 3 && IsHex(t[1]) && IsHex(t[2]) then
        match PercentDecode(t[3..])
        case Some(rest) => Some([HexValue(t[1]) * 16 + HexValue(t[2])] + rest)
        case None => None
      else None
    else if IsUnreserved(t[0]) && (t[0] as int) < 256 then
      match PercentDecode(t[1..])
      case Some(rest) => Some([t[0] as int] + rest)
      case None => None
    else None
  }

  /** Decoding reads one encoded byte off the front. */
  lemma DecodeEncodedByte(b: Byte, rest: string)
    ensures PercentDecode(EncodeByte(b) + rest) ==
      match PercentDecode(rest) case Some(tail) => Some([b] + tail) case None => None
  {
    var t := EncodeByte(b) + rest;
    if IsUnreserved(b as char) {
      assert t[0] == b as char && t[1..] == rest;
    } else {
      assert t[0] == '%' && t[1] == HexDigit(b / 16) && t[2] == HexDigit(b % 16);
      assert t[3..] == rest;
    }
  }

  /** Percent-encoding loses nothing: decoding gives back the bytes. */
  lemma {:induction false} PercentRoundTrip(bs: seq<Byte>)
    ensures PercentDecode(PercentEncode(bs)) == Some(bs)
  {
    if |bs| > 0 {
      PercentRoundTrip(bs[1..]);
      DecodeEncodedByte(bs[0], PercentEncode(bs[1..]));
      assert bs == [bs[0]] + bs[1..];
    }
  }

  /** Text made of unreserved characters passes through `rawurlencode` unchanged. */
  lemma {:induction false} RawUrlEncodeUnreserved(s: string)
    requires forall i :: 0 <= i < |s| ==> IsUnreserved(s[i])
    ensures RawUrlEncode(s) == s
  {
    if |s| > 0 {
      RawUrlEncodeUnreserved(s[1..]);
      assert s == [s[0]] + s[1..];
    }
  }

  /** One `k=v` item of the form body. */
  function FormPair(k: string, v: string): (r: string)
    ensures '&' !in r
  {
    RawUrlEncode(k) + "=" + RawUrlEncode(v)
  }

  function FormPairs(params: seq<(string, string)>): (items: seq<string>)
    ensures |items| == |params|
    ensures forall i :: 0 <= i < |items| ==> '&' !in items[i]
    ensures forall i :: 0 <= i < |items| ==> items[i] == FormPair(params[i].0, params[i].1)
  {
    if |params| == 0 then []
    else
      var rest := FormPairs(params[1..]);
      assert forall i :: 1 <= i < |params| ==> params[i] == params[1..][i - 1];
      [FormPair(params[0].0, params[0].1)] + rest
  }

  /** The form body built from the parameters, in parameter order: empty
      without parameters; otherwise one `&` between consecutive pairs, and
      the server's form decoding gives back every parameter, in order, as
      the UTF-8 bytes of its name and value. */
  function EncodeForm(params: seq<(string, string)>): (body: string)
    ensures |params| == 0 ==> body == ""
    ensures |params| > 0 ==> multiset(body)['&'] == |params| - 1
    ensures |params| > 0 ==> forall i :: 0 <= i < |params| ==>
      Split(body, '&')[i] == RawUrlEncode(params[i].0) + "=" + RawUrlEncode(params[i].1)
    ensures |params| > 0 ==> ParseForm(body) == Some(Utf8Pairs(params))
  {
    var body := Join(FormPairs(params), '&');
    if |params| == 0 then body
    else
      SplitJoin(FormPairs(params), '&');
      ParseFormPairs(params);
      body
  }

  /** The parameters as the byte strings the server receives. */
  function Utf8Pairs(params: seq<(string, string)>): seq<(seq<Byte>, seq<Byte>)>
  {
    if |params| == 0 then [] else [(Utf8(params[0].0), Utf8(params[0].1))] + Utf8Pairs(params[1..])
  }

  function ParseItems(items: seq<string>): Option<seq<(seq<Byte>, seq<Byte>)>>
  {
    if |items| == 0 then Some([])
    else
      match SplitFirst(items[0], '=')
      case (_, None) => None
      case (k, Some(v)) =>
        match (PercentDecode(k), PercentDecode(v), ParseItems(items[1..]))
        case (Some(kb), Some(vb), Some(rest)) => Some([(kb, vb)] + rest)
        case _ => None
  }

  /** A server's reading of a form body: split on `&`, each item at its first
      `=`, and percent-decode both halves. */
  function ParseForm(body: string): Option<seq<(seq<Byte>, seq<Byte>)>>
  {
    ParseItems(Split(body, '&'))
  }

  lemma {:induction false} ParseFormPairs(params: seq<(string, string)>)
    ensures ParseItems(FormPairs(params)) == Some(Utf8Pairs(params))
  {
    if |params| > 0 {
      var (k, v) := params[0];
      var items := FormPairs(params);
      assert items[1..] == FormPairs(params[1..]);
      SplitFirstAt(RawUrlEncode(k), '=', RawUrlEncode(v));
      assert items[0] == RawUrlEncode(k) + ['='] + RawUrlEncode(v);
      PercentRoundTrip(Utf8(k));
      PercentRoundTrip(Utf8(v));
      ParseFormPairs(params[1..]);
    }
  }
}
