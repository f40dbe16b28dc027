/** `urllib.parse.quote` with its default `safe='/'`: the string is encoded as
    UTF-8 and every byte outside the unreserved set of section 2.3 of RFC 3986
    (ASCII letters, digits, `-`, `.`, `_`, `~`) and other than `/` is written
    as a percent-encoded octet (section 2.1), with upper-case hexadecimal
    digits. The decoder is `urllib.parse.unquote_to_bytes`. */
module PercentEncoding {

  newtype byte = x: int | 0 <= x < 256

  /** The UTF-8 encoding of one Unicode scalar value. */
  function Utf8(c: char): (r: seq<byte>)
    ensures 1 <= |r| <= 4
    ensures (c as int < 0x80) <==> |r| == 1
    ensures |r| == 1 ==> r[0] as int == c as int
    ensures |r| > 1 ==> forall k :: 0 <= k < |r| ==> r[k] >= 0x80
  {
    var n := c as int;
    if n < 0x80 then [n as byte]
    else if n < 0x800 then [(0xC0 + n / 64) as byte, (0x80 + n % 64) as byte]
    else if n < 0x10000 then
      [(0xE0 + n / 4096) as byte, (0x80 + (n / 64) % 64) as byte, (0x80 + n % 64) as byte]
    else
      [(0xF0 + n / 262144) as byte, (0x80 + (n / 4096) % 64) as byte,
       (0x80 + (n / 64) % 64) as byte, (0x80 + n % 64) as byte]
  }

  function Utf8Encode(s: string): seq<byte> {
    if s == [] then [] else Utf8(s[0]) + Utf8Encode(s[1..])
  }

  /** The bytes of an ASCII string are its code points, one per character. */
  lemma {:induction false} Utf8EncodeAscii(s: string)
    requires forall k :: 0 <= k < |s| ==> s[k] as int < 0x80
    ensures |Utf8Encode(s)| == |s|
    ensures forall k :: 0 <= k < |s| ==> Utf8Encode(s)[k] as int == s[k] as int
  {
    if s != [] {
      Utf8EncodeAscii(s[1..]);
    }
  }

  /** ASCII letters, digits and `_.-~`: never quoted. */
  predicate Unreserved(c: char) {
    || 'A' <= c <= 'Z' || 'a' <= c <= 'z' || '0' <= c <= '9'
    || c == '_' || c == '.' || c == '-' || c == '~'
  }

  /** The characters `quote` leaves as they are: the unreserved ones and `/`. */
  predicate Safe(c: char) {
    Unreserved(c) || c == '/'
  }

  predicate UpperHex(c: char) {
    '0' <= c <= '9' || 'A' <= c <= 'F'
  }

  function HexDigit(n: int): (c: char)
    requires 0 <= n < 16
    ensures UpperHex(c)
  {
    if n < 10 then ('0' as int + n) as char else ('A' as int + n - 10) as char
  }

  /** A hexadecimal digit in either case, as the decoder accepts it. */
  predicate IsHex(c: char) {
    UpperHex(c) || 'a' <= c <= 'f'
  }

  function HexValue(c: char): (n: int)
    requires IsHex(c)
    ensures 0 <= n < 16
  {
    if c <= '9' then c as int - '0' as int
    else if c <= 'F' then c as int - 'A' as int + 10
    else c as int - 'a' as int + 10
  }

  function QuoteByte(b: byte): (r: string)
    ensures |r| == 1 || |r| == 3
  {
    if b < 0x80 && Safe(b as int as char) then [b as int as char]
    else ['%', HexDigit(b as int / 16), HexDigit(b as int % 16)]
  }

  function QuoteBytes(bs: seq<byte>): string {
    if bs == [] then [] else QuoteByte(bs[0]) + QuoteBytes(bs[1..])
  }

  /** `urllib.parse.quote(s)`. */
  function Quote(s: string): string {
    QuoteBytes(Utf8Encode(s))
  }

  /** `urllib.parse.unquote_to_bytes(t)`: a `%` followed by two hexadecimal
      digits, of either case, is one byte; any other character, a `%` without
      two such digits included, stands for its UTF-8 bytes. */
  function Unquote(t: string): seq<byte> {
    if t == [] then []
    else if |t| >= 3 && t[0] == '%' && IsHex(t[1]) && IsHex(t[2]) then
      [(HexValue(t[1]) * 16 + HexValue(t[2])) as byte] + Unquote(t[3..])
    else Utf8(t[0]) + Unquote(t[1..])
  }

  /** The shape of `quote`'s output: safe characters and `%XX` triplets with
      upper-case hexadecimal digits, nothing else. */
  predicate Encoded(t: string) {
    if t == [] then true
    else if Safe(t[0]) then Encoded(t[1..])
    else |t| >= 3 && t[0] == '%' && UpperHex(t[1]) && UpperHex(t[2]) && Encoded(t[3..])
  }

  lemma HexRoundTrip(n: int)
    requires 0 <= n < 256
    ensures HexValue(HexDigit(n / 16)) * 16 + HexValue(HexDigit(n % 16)) == n
  {
  }

  /** Lower-case triplets decode like upper-case ones; a `%` without two
      hexadecimal digits is kept. */
  lemma UnquoteExamples()
    ensures Unquote("%7b") == [0x7B] && Unquote("%7B") == [0x7B]
    ensures Unquote("%zz") == [0x25, 0x7A, 0x7A]
  {
  }

  lemma UnquoteQuoteByte(b: byte, rest: string)
    ensures Unquote(QuoteByte(b) + rest) == [b] + Unquote(rest)
  {
    var t := QuoteByte(b) + rest;
    if b < 0x80 && Safe(b as int as char) {
      assert t[0] == b as int as char && t[1..] == rest;
    } else {
      assert t[0] == '%' && t[1] == HexDigit(b as int / 16) && t[2] == HexDigit(b as int % 16);
      assert t[3..] == rest;
      HexRoundTrip(b as int);
    }
  }

  lemma {:induction false} UnquoteQuoteBytes(bs: seq<byte>)
    ensures Unquote(QuoteBytes(bs)) == bs
  {
    if bs != [] {
      UnquoteQuoteByte(bs[0], QuoteBytes(bs[1..]));
      UnquoteQuoteBytes(bs[1..]);
    }
  }

  /** Percent-decoding undoes `quote`: it yields the string's UTF-8 bytes. */
  lemma UnquoteQuote(s: string)
    ensures Unquote(Quote(s)) == Utf8Encode(s)
  {
    UnquoteQuoteBytes(Utf8Encode(s));
  }

  lemma EncodedAppendByte(b: byte, rest: string)
    requires Encoded(rest)
    ensures Encoded(QuoteByte(b) + rest)
  {
    var t := QuoteByte(b) + rest;
    if b < 0x80 && Safe(b as int as char) {
      assert t[1..] == rest;
    } else {
      assert t[3..] == rest;
    }
  }

  lemma {:induction false} QuoteBytesEncoded(bs: seq<byte>)
    ensures Encoded(QuoteBytes(bs))
  {
    if bs != [] {
      QuoteBytesEncoded(bs[1..]);
      EncodedAppendByte(bs[0], QuoteBytes(bs[1..]));
    }
  }

  /** Every output of `quote` has the encoded shape. */
  lemma QuoteEncoded(s: string)
    ensures Encoded(Quote(s))
  {
    QuoteBytesEncoded(Utf8Encode(s));
  }

  /** A safe ASCII string is left as it is. */
  lemma {:induction false} QuoteSafe(s: string)
    requires forall k :: 0 <= k < |s| ==> Safe(s[k])
    ensures Quote(s) == s
  {
    if s != [] {
      QuoteSafe(s[1..]);
      assert s == [s[0]] + s[1..];
    }
  }

  lemma {:induction false} Utf8EncodeAppend(a: string, b: string)
    ensures Utf8Encode(a + b) == Utf8Encode(a) + Utf8Encode(b)
  {
    if a == [] {
      assert a + b == b;
    } else {
      assert (a + b)[0] == a[0] && (a + b)[1..] == a[1..] + b;
      Utf8EncodeAppend(a[1..], b);
    }
  }

  lemma {:induction false} QuoteBytesAppend(a: seq<byte>, b: seq<byte>)
    ensures QuoteBytes(a + b) == QuoteBytes(a) + QuoteBytes(b)
  {
    if a == [] {
      assert a + b == b;
    } else {
      assert (a + b)[0] == a[0] && (a + b)[1..] == a[1..] + b;
      QuoteBytesAppend(a[1..], b);
    }
  }

  /** `quote` works character by character, so it distributes over
      concatenation. */
  lemma QuoteAppend(a: string, b: string)
    ensures Quote(a + b) == Quote(a) + Quote(b)
  {
    Utf8EncodeAppend(a, b);
    QuoteBytesAppend(Utf8Encode(a), Utf8Encode(b));
  }
}
