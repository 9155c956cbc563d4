/** ECMAScript `encodeURIComponent`, as the URI builder applies it to the
    label: characters of the unreserved set of section 2.3 of RFC 2396
    (letters, digits and `-_.!~*'()`) pass through, every other character
    is written as its UTF-8 bytes, each as `%` and two upper-case hex
    digits.  The decoder below is its inverse. */
module UriEncoding {
  import opened Wrappers
  import opened Chars

  type Byte = b: int | 0 <= b < 256

  /** The unreserved set of section 2.3 of RFC 2396. */
  predicate IsUnreserved(c: char) {
    IsAlnum(c) || c == '-' || c == '_' || c == '.' || c == '!'
    || c == '~' || c == '*' || c == '\'' || c == '(' || c == ')'
  }

  predicate IsContinuation(b: Byte) {
    0x80 <= b < 0xC0
  }

  /** The UTF-8 encoding of one scalar value (section 3 of RFC 3629). */
  function Utf8(c: char): (bs: seq<Byte>)
    ensures 1 <= |bs| <= 4
    ensures |bs| == 1 <==> (c as int) < 0x80
  {
    var v := c as int;
    if v < 0x80 then [v]
    else if v < 0x800 then [0xC0 + v / 64, 0x80 + v % 64]
    else if v < 0x10000 then [0xE0 + v / 4096, 0x80 + (v / 64) % 64, 0x80 + v % 64]
    else [0xF0 + v / 262144, 0x80 + (v / 4096) % 64, 0x80 + (v / 64) % 64, 0x80 + v % 64]
  }

  function Utf8Encode(s: string): seq<Byte> {
    if s == [] then [] else Utf8(s[0]) + Utf8Encode(s[1..])
  }

  const HexDigits: string := "0123456789ABCDEF"

  /** `%XX` for one byte. */
  function Escape(b: Byte): string {
    ['%', HexDigits[b / 16], HexDigits[b % 16]]
  }

  function EscapeAll(bs: seq<Byte>): string {
    if bs == [] then [] else Escape(bs[0]) + EscapeAll(bs[1..])
  }

  function EncodeChar(c: char): string {
    if IsUnreserved(c) then [c] else EscapeAll(Utf8(c))
  }

  /** Every `%` is followed by two upper-case hex digits. */
  predicate HexEscapes(r: string) {
    forall k :: 0 <= k < |r| && r[k] == '%' ==> k + 2 < |r| && r[k + 1] in HexDigits && r[k + 2] in HexDigits
  }

  lemma HexEscapesJoin(a: string, b: string)
    requires HexEscapes(a) && HexEscapes(b)
    ensures HexEscapes(a + b)
  {
    var r := a + b;
    forall k | 0 <= k < |r| && r[k] == '%'
      ensures k + 2 < |r| && r[k + 1] in HexDigits && r[k + 2] in HexDigits
    {
      if k < |a| {
        assert a[k] == '%';
        assert r[k + 1] == a[k + 1] && r[k + 2] == a[k + 2];
      } else {
        assert b[k - |a|] == '%';
        assert r[k + 1] == b[k - |a| + 1] && r[k + 2] == b[k - |a| + 2];
      }
    }
  }

  /** What the output may contain: unreserved characters and `%` only, so
      never `&`, `=`, `?`, `#` or a space; every `%` starts an upper-case
      escape; unreserved text is unchanged. */
  function EncodeUriComponent(s: string): (r: string)
    ensures forall k :: 0 <= k < |r| ==> IsUnreserved(r[k]) || r[k] == '%'
    ensures HexEscapes(r)
    ensures (forall k :: 0 <= k < |s| ==> IsUnreserved(s[k])) ==> r == s
    ensures |r| >= |s|
  {
    if s == [] then []
    else
      EncodeCharShape(s[0]);
      HexEscapesJoin(EncodeChar(s[0]), EncodeUriComponent(s[1..]));
      EncodeChar(s[0]) + EncodeUriComponent(s[1..])
  }

  /** Encoding works character by character: the encoding of a
      concatenation is the concatenation of the encodings, so an
      unreserved character passes through wherever it stands. */
  lemma {:induction false} EncodeJoin(a: string, b: string)
    ensures EncodeUriComponent(a + b) == EncodeUriComponent(a) + EncodeUriComponent(b)
    decreases |a|
  {
    if a == [] {
      assert a + b == b;
    } else {
      assert (a + b)[0] == a[0] && (a + b)[1..] == a[1..] + b;
      EncodeJoin(a[1..], b);
    }
  }

  lemma {:induction false} EscapeAllShape(bs: seq<Byte>)
    ensures |EscapeAll(bs)| == 3 * |bs|
    ensures forall k :: 0 <= k < |EscapeAll(bs)| ==> IsUnreserved(EscapeAll(bs)[k]) || EscapeAll(bs)[k] == '%'
    ensures HexEscapes(EscapeAll(bs))
  {
    if bs != [] {
      EscapeAllShape(bs[1..]);
      EscapeShape(bs[0]);
      HexEscapesJoin(Escape(bs[0]), EscapeAll(bs[1..]));
    }
  }

  lemma EscapeShape(b: Byte)
    ensures var e := Escape(b);
      && |e| == 3 && e[0] == '%' && IsUnreserved(e[1]) && IsUnreserved(e[2]) && HexEscapes(e)
  {
    var e := Escape(b);
    assert IsAlnum(e[1]) && IsAlnum(e[2]);
    assert e[1] in HexDigits && e[2] in HexDigits;
  }

  lemma EncodeCharShape(c: char)
    ensures |EncodeChar(c)| >= 1
    ensures forall k :: 0 <= k < |EncodeChar(c)| ==> IsUnreserved(EncodeChar(c)[k]) || EncodeChar(c)[k] == '%'
    ensures HexEscapes(EncodeChar(c))
    ensures IsUnreserved(c) ==> EncodeChar(c) == [c]
  {
    if !IsUnreserved(c) {
      EscapeAllShape(Utf8(c));
    }
  }

  // ---------------------------------------------------------------------
  // Decoding

  function HexValue(c: char): Option<nat> {
    if '0' <= c <= '9' then Some(c as int - '0' as int)
    else if 'A' <= c <= 'F' then Some(c as int - 'A' as int + 10)
    else if 'a' <= c <= 'f' then Some(c as int - 'a' as int + 10)
    else None
  }

  function Prepend(bs: seq<Byte>, rest: Option<seq<Byte>>): Option<seq<Byte>> {
    if rest.Some? then Some(bs + rest.value) else None
  }

  /** Percent-decoding to bytes: `%XX` is one byte, any other character
      stands for its own UTF-8 bytes; a `%` without two hex digits fails. */
  function PercentDecode(t: string): Option<seq<Byte>>
    decreases |t|
  {
    if t == [] then Some([])
    else if t[0] == '%' then
      if |t| >= 3 && HexValue(t[1]).Some? && HexValue(t[2]).Some? then
        Prepend([HexValue(t[1]).value * 16 + HexValue(t[2]).value], PercentDecode(t[3..]))
      else None
    else Prepend(Utf8(t[0]), PercentDecode(t[1..]))
  }

  /** The scalar value starting `bs`, and how many bytes it takes; `None`
      for a malformed, overlong or surrogate sequence. */
  function DecodeOne(bs: seq<Byte>): (r: Option<(char, nat)>)
    requires |bs| >= 1
    ensures r.Some? ==> 1 <= r.value.1 <= |bs|
  {
    var b0: int := bs[0];
    if b0 < 0x80 then Some((b0 as char, 1))
    else if 0xC0 <= b0 < 0xE0 && |bs| >= 2 && IsContinuation(bs[1]) then
      var v: int := (b0 - 0xC0) * 64 + (bs[1] as int - 0x80);
      if v >= 0x80 then Some((v as char, 2)) else None
    else if 0xE0 <= b0 < 0xF0 && |bs| >= 3 && IsContinuation(bs[1]) && IsContinuation(bs[2]) then
      var v: int := (b0 - 0xE0) * 4096 + (bs[1] as int - 0x80) * 64 + (bs[2] as int - 0x80);
      if v >= 0x800 && !(0xD800 <= v < 0xE000) then Some((v as char, 3)) else None
    else if 0xF0 <= b0 < 0xF8 && |bs| >= 4
      && IsContinuation(bs[1]) && IsContinuation(bs[2]) && IsContinuation(bs[3]) then
      var v: int := (b0 - 0xF0) * 262144 + (bs[1] as int - 0x80) * 4096
        + (bs[2] as int - 0x80) * 64 + (bs[3] as int - 0x80);
      if 0x10000 <= v < 0x110000 then Some((v as char, 4)) else None
    else None
  }

  function Utf8Decode(bs: seq<Byte>): Option<string>
    decreases |bs|
  {
    if bs == [] then Some([])
    else
      match DecodeOne(bs)
      case None => None
      case Some((c, n)) =>
        match Utf8Decode(bs[n..])
        case None => None
        case Some(rest) => Some([c] + rest)
  }

  /** `decodeURIComponent` on the texts it accepts. */
  function DecodeUriComponent(t: string): Option<string> {
    match PercentDecode(t)
    case None => None
    case Some(bs) => Utf8Decode(bs)
  }

  // ---------------------------------------------------------------------
  // Round trip

  lemma HexDigitValue(n: nat)
    requires n < 16
    ensures HexValue(HexDigits[n]) == Some(n)
  {
  }

  lemma PercentDecodeEscape(b: Byte, rest: string)
    ensures PercentDecode(Escape(b) + rest) == Prepend([b], PercentDecode(rest))
  {
    var t := Escape(b) + rest;
    HexDigitValue(b / 16);
    HexDigitValue(b % 16);
    assert t[1] == HexDigits[b / 16] && t[2] == HexDigits[b % 16];
    assert t[3..] == rest;
  }

  lemma PrependTwice(a: seq<Byte>, b: seq<Byte>, d: Option<seq<Byte>>)
    ensures Prepend(a, Prepend(b, d)) == Prepend(a + b, d)
  {
    if d.Some? {
      assert a + (b + d.value) == (a + b) + d.value;
    }
  }

  lemma {:induction false} PercentDecodeEscapes(bs: seq<Byte>, rest: string)
    ensures PercentDecode(EscapeAll(bs) + rest) == Prepend(bs, PercentDecode(rest))
    decreases |bs|
  {
    var d := PercentDecode(rest);
    if bs == [] {
      assert EscapeAll(bs) + rest == rest;
      if d.Some? {
        assert bs + d.value == d.value;
      }
    } else {
      assert EscapeAll(bs) + rest == Escape(bs[0]) + (EscapeAll(bs[1..]) + rest);
      PercentDecodeEscape(bs[0], EscapeAll(bs[1..]) + rest);
      PercentDecodeEscapes(bs[1..], rest);
      PrependTwice([bs[0]], bs[1..], d);
      assert [bs[0]] + bs[1..] == bs;
    }
  }

  /** Percent-decoding the encoding of `s` gives the UTF-8 bytes of `s`. */
  lemma {:induction false} PercentDecodeEncode(s: string)
    ensures PercentDecode(EncodeUriComponent(s)) == Some(Utf8Encode(s))
    decreases |s|
  {
    if s != [] {
      var c := s[0];
      var rest := EncodeUriComponent(s[1..]);
      PercentDecodeEncode(s[1..]);
      if IsUnreserved(c) {
        assert ([c] + rest)[1..] == rest;
      } else {
        PercentDecodeEscapes(Utf8(c), rest);
      }
    }
  }

  lemma DecodeOneUtf8(c: char, rest: seq<Byte>)
    ensures DecodeOne(Utf8(c) + rest) == Some((c, |Utf8(c)|))
  {
    var v := c as int;
    if v < 0x80 {
      assert (Utf8(c) + rest)[0] == v;
    } else if v < 0x800 {
      DecodeTwo(c, rest);
    } else if v < 0x10000 {
      DecodeThree(c, rest);
    } else {
      DecodeFour(c, rest);
    }
  }

  lemma DecodeTwo(c: char, rest: seq<Byte>)
    requires 0x80 <= c as int < 0x800
    ensures DecodeOne(Utf8(c) + rest) == Some((c, 2))
  {
    var v := c as int;
    var bs := Utf8(c) + rest;
    assert bs[0] == 0xC0 + v / 64 && bs[1] == 0x80 + v % 64;
    DivMod64(v);
  }

  lemma DecodeThree(c: char, rest: seq<Byte>)
    requires 0x800 <= c as int < 0x10000
    ensures DecodeOne(Utf8(c) + rest) == Some((c, 3))
  {
    var v := c as int;
    var bs := Utf8(c) + rest;
    assert bs[0] == 0xE0 + v / 4096 && bs[1] == 0x80 + (v / 64) % 64 && bs[2] == 0x80 + v % 64;
    DivMod4096(v);
  }

  lemma DecodeFour(c: char, rest: seq<Byte>)
    requires 0x10000 <= c as int
    ensures DecodeOne(Utf8(c) + rest) == Some((c, 4))
  {
    var v := c as int;
    var bs := Utf8(c) + rest;
    assert bs[0] == 0xF0 + v / 262144 && bs[1] == 0x80 + (v / 4096) % 64;
    assert bs[2] == 0x80 + (v / 64) % 64 && bs[3] == 0x80 + v % 64;
    DivMod262144(v);
  }

  lemma DivMod64(v: nat)
    ensures (v / 64) * 64 + v % 64 == v
  {
  }

  lemma DivMod4096(v: nat)
    ensures (v / 4096) * 4096 + ((v / 64) % 64) * 64 + v % 64 == v
  {
    DivMod64(v);
    DivMod64(v / 64);
    DivDiv64(v);
  }

  lemma DivMod262144(v: nat)
    ensures (v / 262144) * 262144 + ((v / 4096) % 64) * 4096 + ((v / 64) % 64) * 64 + v % 64 == v
  {
    DivMod4096(v);
    DivMod64(v / 4096);
    DivDiv4096(v);
  }

  lemma DivDiv64(v: nat)
    ensures (v / 64) / 64 == v / 4096
  {
  }

  lemma DivDiv4096(v: nat)
    ensures (v / 4096) / 64 == v / 262144
  {
  }

  lemma {:induction false} Utf8DecodeEncode(s: string)
    ensures Utf8Decode(Utf8Encode(s)) == Some(s)
    decreases |s|
  {
    if s != [] {
      var bs := Utf8Encode(s);
      DecodeOneUtf8(s[0], Utf8Encode(s[1..]));
      assert bs[|Utf8(s[0])|..] == Utf8Encode(s[1..]);
      Utf8DecodeEncode(s[1..]);
      assert [s[0]] + s[1..] == s;
    }
  }

  /** Decoding undoes `encodeURIComponent` for every string. */
  lemma EncodeRoundTrip(s: string)
    ensures DecodeUriComponent(EncodeUriComponent(s)) == Some(s)
  {
    PercentDecodeEncode(s);
    Utf8DecodeEncode(s);
  }
}
