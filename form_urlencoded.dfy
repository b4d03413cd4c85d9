/**
 * `URLSearchParams.prototype.toString`: the application/x-www-form-urlencoded
 * serializer of section 5.2 of the WHATWG URL Standard, with UTF-8 as the
 * encoding, together with the parser that inverts it.
 */
module FormUrlEncoded {
  import opened Wrappers
  import opened Strings

  newtype byte = x: int | 0 <= x < 256

  /** A continuation byte `10xxxxxx` carrying the six bits `v`. */
  function Cont(v: int): byte
    requires 0 <= v < 64
  {
    (0x80 + v) as byte
  }

  /** The UTF-8 encoding of one Unicode scalar value. */
  function Utf8Char(c: char): (r: seq<byte>)
    ensures 1 <= |r| <= 4
  {
    var n := c as int;
    if n < 0x80 then [n as byte]
    else if n < 0x800 then [(0xC0 + n / 64) as byte, Cont(n % 64)]
    else if n < 0x10000 then [(0xE0 + n / 4096) as byte, Cont(n / 64 % 64), Cont(n % 64)]
    else [(0xF0 + n / 262144) as byte, Cont(n / 4096 % 64), Cont(n / 64 % 64), Cont(n % 64)]
  }

  /** The UTF-8 encoding of a string. */
  function Utf8(s: string): seq<byte>
    decreases |s|
  {
    if s == [] then [] else Utf8Char(s[0]) + Utf8(s[1..])
  }

  predicate IsCont(b: byte)
  {
    0x80 <= b < 0xC0
  }

  function ScalarOf(n: int): Option<char>
  {
    if 0 <= n < 0xD800 || 0xE000 <= n < 0x110000 then Some(n as char) else None
  }

  /** Decodes the first character of `bs`: the character and the number of bytes it took. */
  function DecodeFirst(bs: seq<byte>): (r: Option<(char, nat)>)
    requires |bs| > 0
    ensures r.Some? ==> 1 <= r.value.1 <= |bs|
  {
    var b0 := bs[0] as int;
    if b0 < 0x80 then Some((b0 as char, 1))
    else if 0xC0 <= b0 < 0xE0 && |bs| >= 2 && IsCont(bs[1]) then
      var n := (b0 - 0xC0) * 64 + (bs[1] as int - 0x80);
      if n < 0x80 then None else match ScalarOf(n) case None => None case Some(c) => Some((c, 2))
    else if 0xE0 <= b0 < 0xF0 && |bs| >= 3 && IsCont(bs[1]) && IsCont(bs[2]) then
      var n := (b0 - 0xE0) * 4096 + (bs[1] as int - 0x80) * 64 + (bs[2] as int - 0x80);
      if n < 0x800 then None else match ScalarOf(n) case None => None case Some(c) => Some((c, 3))
    else if 0xF0 <= b0 < 0xF8 && |bs| >= 4 && IsCont(bs[1]) && IsCont(bs[2]) && IsCont(bs[3]) then
      var n := (b0 - 0xF0) * 262144 + (bs[1] as int - 0x80) * 4096
               + (bs[2] as int - 0x80) * 64 + (bs[3] as int - 0x80);
      if n < 0x10000 then None else match ScalarOf(n) case None => None case Some(c) => Some((c, 4))
    else None
  }

  /** A strict UTF-8 decoder: `None` on any ill-formed sequence. */
  function Utf8Decode(bs: seq<byte>): Option<string>
    decreases |bs|
  {
    if bs == [] then Some("")
    else match DecodeFirst(bs)
      case None => None
      case Some((c, k)) =>
        match Utf8Decode(bs[k..])
        case None => None
        case Some(rest) => Some([c] + rest)
  }

  lemma ScalarOfChar(c: char)
    ensures ScalarOf(c as int) == Some(c)
  {
  }

  lemma DecodeFirstChar(c: char, rest: seq<byte>)
    ensures DecodeFirst(Utf8Char(c) + rest) == Some((c, |Utf8Char(c)|))
  {
    var n := c as int;
    ScalarOfChar(c);
    if n < 0x80 {
    } else if n < 0x800 {
      DecodeTwo(c, rest);
    } else if n < 0x10000 {
      DecodeThree(c, rest);
    } else {
      DecodeFour(c, rest);
    }
  }

  lemma DecodeTwo(c: char, rest: seq<byte>)
    requires 0x80 <= c as int < 0x800
    ensures DecodeFirst(Utf8Char(c) + rest) == Some((c, 2))
  {
    var n := c as int;
    var bs := Utf8Char(c) + rest;
    var b0, b1 := n / 64, n % 64;
    assert bs[0] as int == 0xC0 + b0 && bs[1] as int == 0x80 + b1;
    assert b0 * 64 + b1 == n;
    ScalarOfChar(c);
  }

  lemma DecodeThree(c: char, rest: seq<byte>)
    requires 0x800 <= c as int < 0x10000
    ensures DecodeFirst(Utf8Char(c) + rest) == Some((c, 3))
  {
    var n := c as int;
    var bs := Utf8Char(c) + rest;
    var b0, b1, b2 := n / 4096, n / 64 % 64, n % 64;
    assert bs[0] as int == 0xE0 + b0 && bs[1] as int == 0x80 + b1 && bs[2] as int == 0x80 + b2;
    assert n / 64 == b0 * 64 + b1;
    assert b0 * 4096 + b1 * 64 + b2 == n;
    ScalarOfChar(c);
  }

  /** The four six-bit (or three-bit) groups of a supplementary code point put it back together. */
  lemma FourGroups(n: int)
    requires 0x10000 <= n < 0x110000
    ensures 0 <= n / 262144 < 8
    ensures (n / 262144) * 262144 + (n / 4096 % 64) * 4096 + (n / 64 % 64) * 64 + n % 64 == n
  {
    var q1, q2 := n / 64, n / 4096;
    assert n == q1 * 64 + n % 64;
    assert q2 == q1 / 64;
    assert q1 == q2 * 64 + q1 % 64;
    assert n / 262144 == q2 / 64;
    assert q2 == (n / 262144) * 64 + q2 % 64;
  }

  lemma DecodeFour(c: char, rest: seq<byte>)
    requires 0x10000 <= c as int
    ensures DecodeFirst(Utf8Char(c) + rest) == Some((c, 4))
  {
    var n := c as int;
    var bs := Utf8Char(c) + rest;
    var b0, b1, b2, b3 := n / 262144, n / 4096 % 64, n / 64 % 64, n % 64;
    FourGroups(n);
    assert bs[0] as int == 0xF0 + b0 && bs[1] as int == 0x80 + b1;
    assert bs[2] as int == 0x80 + b2 && bs[3] as int == 0x80 + b3;
    ScalarOfChar(c);
  }

  /** Decoding undoes UTF-8 encoding. */
  lemma {:induction false} Utf8RoundTrip(s: string)
    ensures Utf8Decode(Utf8(s)) == Some(s)
    decreases |s|
  {
    if s != [] {
      var head := Utf8Char(s[0]);
      DecodeFirstChar(s[0], Utf8(s[1..]));
      assert (head + Utf8(s[1..]))[|head|..] == Utf8(s[1..]);
      Utf8RoundTrip(s[1..]);
      assert s == [s[0]] + s[1..];
    }
  }

  /** The bytes left as they are: ASCII alphanumerics and `*`, `-`, `.`, `_`. */
  predicate IsUnreserved(b: byte)
  {
    b == 0x2A || b == 0x2D || b == 0x2E || 0x30 <= b <= 0x39 || 0x41 <= b <= 0x5A
    || b == 0x5F || 0x61 <= b <= 0x7A
  }

  function HexDigit(n: int): (c: char)
    requires 0 <= n < 16
  {
    "0123456789ABCDEF"[n]
  }

  function HexValue(c: char): Option<int>
  {
    if '0' <= c <= '9' then Some(c as int - '0' as int)
    else if 'A' <= c <= 'F' then Some(c as int - 'A' as int + 10)
    else if 'a' <= c <= 'f' then Some(c as int - 'a' as int + 10)
    else None
  }

  /** One byte percent-encoded with the form-urlencoded set, a space becoming `+`. */
  function EncodeByte(b: byte): string
  {
    if b == 0x20 then "+"
    else if IsUnreserved(b) then [b as int as char]
    else ['%', HexDigit(b as int / 16), HexDigit(b as int % 16)]
  }

  function EncodeBytes(bs: seq<byte>): string
    decreases |bs|
  {
    if bs == [] then "" else EncodeByte(bs[0]) + EncodeBytes(bs[1..])
  }

  /** Percent-encode-after-encoding a name or a value. */
  function Encode(s: string): string
  {
    EncodeBytes(Utf8(s))
  }

  lemma {:induction false} Utf8Append(a: string, b: string)
    ensures Utf8(a + b) == Utf8(a) + Utf8(b)
    decreases |a|
  {
    if a == [] {
      assert a + b == b;
    } else {
      assert (a + b)[1..] == a[1..] + b;
      Utf8Append(a[1..], b);
    }
  }

  lemma {:induction false} EncodeBytesAppend(a: seq<byte>, b: seq<byte>)
    ensures EncodeBytes(a + b) == EncodeBytes(a) + EncodeBytes(b)
    decreases |a|
  {
    if a == [] {
      assert a + b == b;
    } else {
      assert (a + b)[1..] == a[1..] + b;
      EncodeBytesAppend(a[1..], b);
    }
  }

  lemma EncodeAppend(a: string, b: string)
    ensures Encode(a + b) == Encode(a) + Encode(b)
  {
    Utf8Append(a, b);
    EncodeBytesAppend(Utf8(a), Utf8(b));
  }

  /** ASCII alphanumerics and `*-._`: the characters serialized as themselves. */
  predicate IsSafeChar(c: char)
  {
    c as int < 0x80 && IsUnreserved(c as int as byte)
  }

  /** A string of safe characters is serialized unchanged. */
  lemma {:induction false} EncodeSafe(s: string)
    requires forall k :: 0 <= k < |s| ==> IsSafeChar(s[k])
    ensures Encode(s) == s
    decreases |s|
  {
    if s != [] {
      EncodeSafe(s[1..]);
      assert s == [s[0]] + s[1..];
      EncodeAppend([s[0]], s[1..]);
      assert Utf8([s[0]]) == [s[0] as int as byte];
      assert EncodeBytes([s[0] as int as byte]) == [s[0]];
    }
  }

  /** The characters a serialized name or value can hold. */
  predicate IsEncodedChar(c: char)
  {
    c == '+' || c == '%' || ('0' <= c <= '9') || ('A' <= c <= 'Z') || ('a' <= c <= 'z')
    || c == '*' || c == '-' || c == '.' || c == '_'
  }

  lemma EncodeByteChars(b: byte)
    ensures forall k :: 0 <= k < |EncodeByte(b)| ==> IsEncodedChar(EncodeByte(b)[k])
  {
  }

  lemma EncodedAppend(a: string, b: string)
    requires forall k :: 0 <= k < |a| ==> IsEncodedChar(a[k])
    requires forall k :: 0 <= k < |b| ==> IsEncodedChar(b[k])
    ensures forall k :: 0 <= k < |a + b| ==> IsEncodedChar((a + b)[k])
  {
    assert forall k :: |a| <= k < |a + b| ==> (a + b)[k] == b[k - |a|];
  }

  lemma {:induction false} EncodeBytesChars(bs: seq<byte>)
    ensures forall k :: 0 <= k < |EncodeBytes(bs)| ==> IsEncodedChar(EncodeBytes(bs)[k])
    decreases |bs|
  {
    if bs != [] {
      EncodeBytesChars(bs[1..]);
      EncodeByteChars(bs[0]);
      EncodedAppend(EncodeByte(bs[0]), EncodeBytes(bs[1..]));
    }
  }

  /** A serialized name or value holds no space, `&` or `=`, and no other reserved character. */
  lemma EncodeChars(s: string)
    ensures forall k :: 0 <= k < |Encode(s)| ==> IsEncodedChar(Encode(s)[k])
    ensures ' ' !in Encode(s) && '&' !in Encode(s) && '=' !in Encode(s)
  {
    EncodeBytesChars(Utf8(s));
  }

  /** The inverse of `EncodeBytes`: the bytes a serialized name or value stands for. */
  function DecodeBytes(s: string): Option<seq<byte>>
    decreases |s|
  {
    if s == [] then Some([])
    else
      var c := s[0];
      if c == '%' then
        if |s| >= 3 && HexValue(s[1]).Some? && HexValue(s[2]).Some? then
          match DecodeBytes(s[3..])
          case None => None
          case Some(rest) => Some([(HexValue(s[1]).value * 16 + HexValue(s[2]).value) as byte] + rest)
        else None
      else
        var b := if c == '+' then 0x20 else c as int;
        if c == '+' || (b < 256 && IsUnreserved(b as byte)) then
          match DecodeBytes(s[1..])
          case None => None
          case Some(rest) => Some([b as byte] + rest)
        else None
  }

  lemma HexRoundTrip(n: int)
    requires 0 <= n < 16
    ensures HexValue(HexDigit(n)) == Some(n)
  {
  }

  /** Decoding steps over one serialized byte. */
  lemma DecodeEncodedByte(b: byte, t: string)
    ensures DecodeBytes(EncodeByte(b) + t)
      == match DecodeBytes(t) case None => None case Some(rest) => Some([b] + rest)
  {
    var s := EncodeByte(b) + t;
    if b == 0x20 || IsUnreserved(b) {
      assert s[1..] == t;
    } else {
      var hi, lo := b as int / 16, b as int % 16;
      HexRoundTrip(hi);
      HexRoundTrip(lo);
      assert s[0] == '%' && s[1] == HexDigit(hi) && s[2] == HexDigit(lo) && s[3..] == t;
    }
  }

  lemma {:induction false} DecodeEncodeBytes(bs: seq<byte>)
    ensures DecodeBytes(EncodeBytes(bs)) == Some(bs)
    decreases |bs|
  {
    if bs != [] {
      DecodeEncodeBytes(bs[1..]);
      DecodeEncodedByte(bs[0], EncodeBytes(bs[1..]));
      assert bs == [bs[0]] + bs[1..];
    }
  }

  /** Decoding a serialized name or value gives back the string. */
  function DecodeString(s: string): Option<string>
  {
    match DecodeBytes(s)
    case None => None
    case Some(bs) => Utf8Decode(bs)
  }

  lemma EncodeRoundTrip(s: string)
    ensures DecodeString(Encode(s)) == Some(s)
  {
    DecodeEncodeBytes(Utf8(s));
    Utf8RoundTrip(s);
  }

  /** `name=value` for each pair. */
  function PairStrings(pairs: seq<(string, string)>): (r: seq<string>)
    ensures |r| == |pairs|
    decreases |pairs|
  {
    if pairs == [] then []
    else [Encode(pairs[0].0) + "=" + Encode(pairs[0].1)] + PairStrings(pairs[1..])
  }

  /** The serialization of a list of name/value pairs: `params.toString()`. */
  function Serialize(pairs: seq<(string, string)>): string
  {
    Join(PairStrings(pairs), "&")
  }

  lemma SerializeNonEmpty(pairs: seq<(string, string)>)
    requires |pairs| > 0
    ensures |Serialize(pairs)| > 0
  {
    var parts := PairStrings(pairs);
    assert |parts[0]| > 0;
    if |parts| > 1 {
      assert Serialize(pairs) == parts[0] + "&" + Join(parts[1..], "&");
    }
  }

  /** `/` is serialized as `%2F`. */
  lemma EncodeSlash()
    ensures Encode("/") == "%2F"
  {
    assert Utf8("/") == [0x2F];
    assert EncodeByte(0x2F) == "%2F";
    assert EncodeBytes([0x2F]) == EncodeByte(0x2F) + EncodeBytes([]);
  }

  /** The serialized query holds only serialized characters and the two delimiters `&` and `=`. */
  lemma SerializeChars(pairs: seq<(string, string)>, x: char)
    requires x in Serialize(pairs)
    ensures IsEncodedChar(x) || x == '&' || x == '='
  {
    var pieces := PairStrings(pairs);
    JoinMember(pieces, "&", x);
    if x != '&' {
      var k :| 0 <= k < |pieces| && x in pieces[k];
      PieceChars(pairs, k, x);
    }
  }

  lemma {:induction false} PieceChars(pairs: seq<(string, string)>, k: nat, x: char)
    requires k < |pairs| && x in PairStrings(pairs)[k]
    ensures IsEncodedChar(x) || x == '='
    decreases k
  {
    if k == 0 {
      EncodeChars(pairs[0].0);
      EncodeChars(pairs[0].1);
    } else {
      assert PairStrings(pairs)[k] == PairStrings(pairs[1..])[k - 1];
      PieceChars(pairs[1..], k - 1, x);
    }
  }

  /** Splits one `name=value` piece at its first `=`. */
  function ParsePair(piece: string): Option<(string, string)>
  {
    match IndexOf(piece, "=")
    case None => None
    case Some(i) =>
      match (DecodeString(piece[..i]), DecodeString(piece[i + 1..]))
      case (Some(n), Some(v)) => Some((n, v))
      case _ => None
  }

  function ParsePieces(pieces: seq<string>): Option<seq<(string, string)>>
    decreases |pieces|
  {
    if pieces == [] then Some([])
    else
      match (ParsePair(pieces[0]), ParsePieces(pieces[1..]))
      case (Some(p), Some(rest)) => Some([p] + rest)
      case _ => None
  }

  /** A strict form-urlencoded parser: the pairs a query string stands for. */
  function Parse(q: string): Option<seq<(string, string)>>
  {
    if q == "" then Some([]) else ParsePieces(Split(q, "&"))
  }

  lemma ParsePairString(n: string, v: string)
    ensures ParsePair(Encode(n) + "=" + Encode(v)) == Some((n, v))
  {
    var en, ev := Encode(n), Encode(v);
    EncodeChars(n);
    FirstOccurrence(en, "=", ev);
    var piece := en + "=" + ev;
    assert piece[..|en|] == en;
    assert piece[|en| + 1..] == ev;
    EncodeRoundTrip(n);
    EncodeRoundTrip(v);
  }

  lemma {:induction false} ParsePiecesRoundTrip(pairs: seq<(string, string)>)
    ensures ParsePieces(PairStrings(pairs)) == Some(pairs)
    decreases |pairs|
  {
    if pairs != [] {
      ParsePairString(pairs[0].0, pairs[0].1);
      ParsePiecesRoundTrip(pairs[1..]);
      assert PairStrings(pairs)[1..] == PairStrings(pairs[1..]);
      assert pairs == [pairs[0]] + pairs[1..];
    }
  }

  lemma {:induction false} PairStringsNoAmpersand(pairs: seq<(string, string)>)
    ensures forall k :: 0 <= k < |pairs| ==> '&' !in PairStrings(pairs)[k]
    decreases |pairs|
  {
    if pairs != [] {
      EncodeChars(pairs[0].0);
      EncodeChars(pairs[0].1);
      PairStringsNoAmpersand(pairs[1..]);
      assert forall k :: 1 <= k < |pairs| ==> PairStrings(pairs)[k] == PairStrings(pairs[1..])[k - 1];
    }
  }

  /** The serialized query determines the pairs: parsing it gives back the same names and values, in order. */
  lemma SerializeRoundTrip(pairs: seq<(string, string)>)
    ensures Parse(Serialize(pairs)) == Some(pairs)
  {
    if pairs != [] {
      var pieces := PairStrings(pairs);
      PairStringsNoAmpersand(pairs);
      SplitJoin(pieces, "&");
      assert '=' in pieces[0];
      assert Serialize(pairs) != "" by {
        assert |pieces| == 1 ==> Serialize(pairs) == pieces[0];
        assert |pieces| > 1 ==> Serialize(pairs) == pieces[0] + "&" + Join(pieces[1..], "&");
      }
      ParsePiecesRoundTrip(pairs);
    }
  }
}
