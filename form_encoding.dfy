/**
 * application/x-www-form-urlencoded with UTF-8, as java.net.URLEncoder.encode(s, UTF_8) writes
 * it, and the decoder that reads it back.
 */
module FormEncoding {
  import opened Wrappers
  import Utf8

  /** Characters URLEncoder leaves as they are. */
  predicate IsUnreserved(c: char) {
    ('a' <= c <= 'z') || ('A' <= c <= 'Z') || ('0' <= c <= '9') || c == '.' || c == '-' || c == '*' || c == '_'
  }

  predicate IsUpperHexDigit(c: char) {
    ('0' <= c <= '9') || ('A' <= c <= 'F')
  }

  /** The characters an encoded string is made of. */
  predicate IsFormSafe(c: char) {
    IsUnreserved(c) || c == '+' || c == '%'
  }

  function HexDigit(n: int): (c: char)
    requires 0 <= n < 16
    ensures IsUpperHexDigit(c)
  {
    if n < 10 then ('0' as int + n) as char else ('A' as int + n - 10) as char
  }

  function HexValue(c: char): (n: int)
    requires IsUpperHexDigit(c)
    ensures 0 <= n < 16 && HexDigit(n) == c
  {
    if c <= '9' then c as int - '0' as int else c as int - 'A' as int + 10
  }

  lemma HexRoundTrip(n: int)
    requires 0 <= n < 16
    ensures HexValue(HexDigit(n)) == n
  {
  }

  /** `%XX` for every byte, in upper-case hexadecimal. */
  function PercentEncode(bs: seq<Utf8.byte>): (r: string)
    ensures |r| == 3 * |bs|
  {
    if bs == [] then ""
    else ['%', HexDigit(bs[0] as int / 16), HexDigit(bs[0] as int % 16)] + PercentEncode(bs[1..])
  }

  /** Every `%` starts an escape: two upper-case hexadecimal digits follow it. */
  predicate IsWellEscaped(r: string) {
    forall i :: 0 <= i < |r| && r[i] == '%' ==> i + 2 < |r| && IsUpperHexDigit(r[i + 1]) && IsUpperHexDigit(r[i + 2])
  }

  lemma EscapedAppend(a: string, b: string)
    requires IsWellEscaped(a) && IsWellEscaped(b)
    ensures IsWellEscaped(a + b)
  {
    forall i | 0 <= i < |a + b| && (a + b)[i] == '%'
      ensures i + 2 < |a + b| && IsUpperHexDigit((a + b)[i + 1]) && IsUpperHexDigit((a + b)[i + 2])
    {
      if i >= |a| {
        assert b[i - |a|] == '%';
      }
    }
  }

  function EncodeChar(c: char): (r: string)
    ensures forall i :: 0 <= i < |r| ==> IsFormSafe(r[i])
    ensures IsWellEscaped(r)
  {
    if IsUnreserved(c) then [c]
    else if c == ' ' then "+"
    else
      var bytes := Utf8.EncodeChar(c);
      PercentEncodeShape(bytes);
      PercentEncode(bytes)
  }

  /** URLEncoder.encode(s, UTF_8): only letters, digits, `.`, `-`, `*`, `_`, `+` and `%XX`
      escapes, so the result can neither end a query parameter (`&`, `=`) nor start a
      fragment (`#`). */
  function Encode(s: string): (r: string)
    ensures forall i :: 0 <= i < |r| ==> IsFormSafe(r[i])
    ensures IsWellEscaped(r)
  {
    if s == [] then ""
    else
      var head := EncodeChar(s[0]);
      var tail := Encode(s[1..]);
      EscapedAppend(head, tail);
      head + tail
  }

  lemma {:induction false} PercentEncodeShape(bs: seq<Utf8.byte>)
    ensures forall i :: 0 <= i < |PercentEncode(bs)| ==> IsFormSafe(PercentEncode(bs)[i])
    ensures IsWellEscaped(PercentEncode(bs))
    decreases |bs|
  {
    if bs != [] {
      PercentEncodeShape(bs[1..]);
      var head := ['%', HexDigit(bs[0] as int / 16), HexDigit(bs[0] as int % 16)];
      EscapedAppend(head, PercentEncode(bs[1..]));
    }
  }

  /** The bytes a form-encoded string stands for: `+` is a space, `%XX` one byte, and any other
      character its own UTF-8 bytes; a `%` not followed by two hex digits is malformed. */
  function ToBytes(s: string): Option<seq<Utf8.byte>>
    decreases |s|
  {
    if s == [] then Some([])
    else if s[0] == '%' then
      if |s| >= 3 && IsUpperHexDigit(s[1]) && IsUpperHexDigit(s[2]) then
        Prepend([(HexValue(s[1]) * 16 + HexValue(s[2])) as Utf8.byte], ToBytes(s[3..]))
      else None
    else if s[0] == '+' then Prepend([0x20], ToBytes(s[1..]))
    else Prepend(Utf8.EncodeChar(s[0]), ToBytes(s[1..]))
  }

  function Prepend(head: seq<Utf8.byte>, tail: Option<seq<Utf8.byte>>): Option<seq<Utf8.byte>> {
    match tail
    case None => None
    case Some(t) => Some(head + t)
  }

  /** The decoder a server applies to a form-encoded parameter. */
  function Decode(s: string): Option<string> {
    match ToBytes(s)
    case None => None
    case Some(bs) => Utf8.Decode(bs)
  }

  lemma {:induction false} ToBytesPercent(bs: seq<Utf8.byte>, rest: string)
    ensures ToBytes(PercentEncode(bs) + rest) == Prepend(bs, ToBytes(rest))
    decreases |bs|
  {
    if bs == [] {
      assert PercentEncode(bs) + rest == rest;
      if ToBytes(rest).Some? {
        assert bs + ToBytes(rest).value == ToBytes(rest).value;
      }
    } else {
      var head := ['%', HexDigit(bs[0] as int / 16), HexDigit(bs[0] as int % 16)];
      var tail := PercentEncode(bs[1..]) + rest;
      var s := head + tail;
      assert PercentEncode(bs) + rest == s;
      assert s[3..] == tail;
      ToBytesEscape(bs[0], s);
      ToBytesPercent(bs[1..], rest);
      PrependTwice(bs, ToBytes(rest));
    }
  }

  /** A `%XX` escape of a byte reads back as that byte. */
  lemma ToBytesEscape(b: Utf8.byte, s: string)
    requires |s| >= 3 && s[0] == '%' && s[1] == HexDigit(b as int / 16) && s[2] == HexDigit(b as int % 16)
    ensures ToBytes(s) == Prepend([b], ToBytes(s[3..]))
  {
    HexRoundTrip(b as int / 16);
    HexRoundTrip(b as int % 16);
    assert (HexValue(s[1]) * 16 + HexValue(s[2])) as Utf8.byte == b;
  }

  lemma PrependTwice(bs: seq<Utf8.byte>, tail: Option<seq<Utf8.byte>>)
    requires bs != []
    ensures Prepend([bs[0]], Prepend(bs[1..], tail)) == Prepend(bs, tail)
  {
    if tail.Some? {
      assert [bs[0]] + (bs[1..] + tail.value) == bs + tail.value;
    }
  }

  lemma ToBytesEncodeChar(c: char, rest: string)
    ensures ToBytes(EncodeChar(c) + rest) == Prepend(Utf8.EncodeChar(c), ToBytes(rest))
  {
    if IsUnreserved(c) || c == ' ' {
      assert (EncodeChar(c) + rest)[1..] == rest;
    } else {
      ToBytesPercent(Utf8.EncodeChar(c), rest);
    }
  }

  lemma {:induction false} ToBytesEncode(s: string)
    ensures ToBytes(Encode(s)) == Some(Utf8.Encode(s))
    decreases |s|
  {
    if s != [] {
      ToBytesEncodeChar(s[0], Encode(s[1..]));
      ToBytesEncode(s[1..]);
    }
  }

  /** Decoding a form-encoded string gives back exactly the string that was encoded. */
  lemma DecodeEncode(s: string)
    ensures Decode(Encode(s)) == Some(s)
  {
    ToBytesEncode(s);
    Utf8.DecodeEncode(s);
  }
}
