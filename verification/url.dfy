/** Percent-encoding as Go's `net/url` package applies it to one path
    segment (`url.PathEscape`, `url.PathUnescape`): section 2.1 of RFC 3986
    with the segment character set of section 3.3. */
module Url {
  import opened Strings
  import opened Wrappers

  const PERCENT: byte := '%' as byte

  /** Go's shouldEscape(c, encodePathSegment): letters, digits, the marks
      `-` `_` `.` `~` and the sub-delimiters `$` `&` `+` `:` `=` `@` stay as
      they are; every other byte, `/` `;` `,` `?` included, is escaped. */
  predicate ShouldEscape(c: byte)
  {
    if 'a' as byte <= c <= 'z' as byte || 'A' as byte <= c <= 'Z' as byte || '0' as byte <= c <= '9' as byte then false
    else if c == '-' as byte || c == '_' as byte || c == '.' as byte || c == '~' as byte then false
    else if c == '$' as byte || c == '&' as byte || c == '+' as byte || c == ':' as byte
         || c == '=' as byte || c == '@' as byte then false
    else true
  }

  /** The upper-case hexadecimal digit of a value below 16. */
  function UpperHex(n: byte): (d: byte)
    requires n < 16
    ensures IsHex(d) && HexValue(d) == n
  {
    if n < 10 then '0' as byte + n else 'A' as byte + (n - 10)
  }

  predicate IsHex(c: byte)
  {
    '0' as byte <= c <= '9' as byte || 'a' as byte <= c <= 'f' as byte || 'A' as byte <= c <= 'F' as byte
  }

  /** Go's unhex: the value of a hexadecimal digit of either case. */
  function HexValue(c: byte): (n: byte)
    requires IsHex(c)
    ensures n < 16
  {
    if '0' as byte <= c <= '9' as byte then c - '0' as byte
    else if 'a' as byte <= c <= 'f' as byte then c - 'a' as byte + 10
    else c - 'A' as byte + 10
  }

  /** One byte as PathEscape writes it: itself, or `%` and two upper-case
      hexadecimal digits. Neither form is `/` or a newline. */
  function EscapeByte(c: byte): (r: seq<byte>)
    ensures 1 <= |r| <= 3
    ensures SLASH !in r && NEWLINE !in r
  {
    if ShouldEscape(c) then [PERCENT, UpperHex(c / 16), UpperHex(c % 16)] else [c]
  }

  /** url.PathEscape: every byte that may not appear in a path segment is
      written as `%XX`. The result holds no `/` and no newline, so it stays
      one segment of the URL and one line of the catalog. */
  function PathEscape(s: seq<byte>): (r: seq<byte>)
    ensures SLASH !in r && NEWLINE !in r
    ensures |s| <= |r| <= 3 * |s|
  {
    if s == [] then [] else EscapeByte(s[0]) + PathEscape(s[1..])
  }

  /** url.PathUnescape: each `%XX` becomes the byte XX; a `%` not followed
      by two hexadecimal digits is an error. No other byte is translated. */
  function PathUnescape(s: seq<byte>): Option<seq<byte>>
  {
    if s == [] then Some([])
    else if s[0] == PERCENT then
      if |s| < 3 || !IsHex(s[1]) || !IsHex(s[2]) then None
      else
        match PathUnescape(s[3..])
        case None => None
        case Some(t) => Some([HexValue(s[1]) * 16 + HexValue(s[2])] + t)
    else
      match PathUnescape(s[1..])
      case None => None
      case Some(t) => Some([s[0]] + t)
  }

  /** Unescaping `%XX` in front of an unescapable rest. */
  lemma UnescapeTriple(h: byte, l: byte, rest: seq<byte>, t: seq<byte>)
    requires IsHex(h) && IsHex(l) && PathUnescape(rest) == Some(t)
    ensures PathUnescape([PERCENT, h, l] + rest) == Some([HexValue(h) * 16 + HexValue(l)] + t)
  {
    assert ([PERCENT, h, l] + rest)[3..] == rest;
  }

  /** Unescaping a byte other than `%` in front of an unescapable rest. */
  lemma UnescapePlain(c: byte, rest: seq<byte>, t: seq<byte>)
    requires c != PERCENT && PathUnescape(rest) == Some(t)
    ensures PathUnescape([c] + rest) == Some([c] + t)
  {
    assert ([c] + rest)[1..] == rest;
  }

  lemma EscapeByteRoundTrip(c: byte, rest: seq<byte>, t: seq<byte>)
    requires PathUnescape(rest) == Some(t)
    ensures PathUnescape(EscapeByte(c) + rest) == Some([c] + t)
  {
    if ShouldEscape(c) {
      var h, l := UpperHex(c / 16), UpperHex(c % 16);
      UnescapeTriple(h, l, rest, t);
    } else {
      UnescapePlain(c, rest, t);
    }
  }

  /** Unescaping recovers exactly the bytes that were escaped. */
  lemma {:induction false} PathUnescapeEscape(s: seq<byte>)
    ensures PathUnescape(PathEscape(s)) == Some(s)
  {
    if s != [] {
      PathUnescapeEscape(s[1..]);
      EscapeByteRoundTrip(s[0], PathEscape(s[1..]), s[1..]);
      assert s == [s[0]] + s[1..];
    }
  }

  /** A segment made only of bytes that need no escaping is left unchanged. */
  lemma {:induction false} PathEscapeSafe(s: seq<byte>)
    requires forall i :: 0 <= i < |s| ==> !ShouldEscape(s[i])
    ensures PathEscape(s) == s
  {
    if s != [] {
      PathEscapeSafe(s[1..]);
      assert s == [s[0]] + s[1..];
    }
  }
}
