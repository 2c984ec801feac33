/** `encodeURIComponent` and `decodeURIComponent` (section 19.2.6 of
    ECMA-262): percent-encoding of the UTF-8 bytes of every character
    outside the unreserved set of section 2.3 of RFC 3986 extended with
    `! * ' ( )`, and the inverse decoding that fails with a URIError on a
    malformed escape. */
module UriComponent {
  import opened Wrappers

  type Byte = b: int | 0 <= b < 256

  /** The characters `encodeURIComponent` leaves as they are. */
  predicate IsUnreserved(c: char) {
    || ('A' <= c <= 'Z') || ('a' <= c <= 'z') || ('0' <= c <= '9')
    || c == '-' || c == '_' || c == '.' || c == '!' || c == '~'
    || c == '*' || c == '\'' || c == '(' || c == ')'
  }

  predicate IsUpperHexDigit(c: char) {
    ('0' <= c <= '9') || ('A' <= c <= 'F')
  }

  /** The upper-case hexadecimal digit for `n`. */
  function HexDigit(n: int): (c: char)
    requires 0 <= n < 16
    ensures IsUpperHexDigit(c)
  {
    if n < 10 then ('0' as int + n) as char else ('A' as int + n - 10) as char
  }

  /** The value of a hexadecimal digit in either case. */
  function HexValue(c: char): (r: Option<int>)
    ensures r.Some? ==> 0 <= r.value < 16
    ensures r.Some? <==> ('0' <= c <= '9') || ('A' <= c <= 'F') || ('a' <= c <= 'f')
  {
    if '0' <= c <= '9' then Some(c as int - '0' as int)
    else if 'A' <= c <= 'F' then Some(c as int - 'A' as int + 10)
    else if 'a' <= c <= 'f' then Some(c as int - 'a' as int + 10)
    else None
  }

  lemma HexValueOfDigit(n: int)
    requires 0 <= n < 16
    ensures HexValue(HexDigit(n)) == Some(n)
  {
  }

  // ---------------------------------------------------------------------
  // UTF-8 (RFC 3629)

  /** The UTF-8 encoding of a Unicode scalar value. */
  function Utf8(c: char): (r: seq<Byte>)
    ensures 1 <= |r| <= 4
    ensures |r| == 1 <==> c as int < 0x80
  {
    var cp := c as int;
    if cp < 0x80 then [cp]
    else if cp < 0x800 then [0xC0 + cp / 64, 0x80 + cp % 64]
    else if cp < 0x10000 then [0xE0 + cp / 4096, 0x80 + (cp / 64) % 64, 0x80 + cp % 64]
    else [0xF0 + cp / 262144, 0x80 + (cp / 4096) % 64, 0x80 + (cp / 64) % 64, 0x80 + cp % 64]
  }

  /** The number of leading one bits of a byte. */
  function LeadingOnes(b: Byte): (n: nat)
    ensures n <= 8
    ensures n == 0 <==> b < 0x80
  {
    if b < 0x80 then 0 else if b < 0xC0 then 1 else if b < 0xE0 then 2
    else if b < 0xF0 then 3 else if b < 0xF8 then 4 else if b < 0xFC then 5
    else if b < 0xFE then 6 else if b < 0xFF then 7 else 8
  }

  predicate IsContinuation(b: Byte) {
    0x80 <= b < 0xC0
  }

  /** The scalar value a sequence of one to four bytes is the UTF-8
      encoding of, or None when it is not a valid encoding: a wrong lead
      or continuation byte, an overlong form, a surrogate, or a value past
      U+10FFFF. */
  function Utf8Decode(bs: seq<Byte>): (r: Option<int>)
    ensures r.Some? ==> 0 <= r.value < 0xD800 || 0xE000 <= r.value < 0x11_0000
  {
    if |bs| == 1 then
      if bs[0] < 0x80 then Some(bs[0]) else None
    else if |bs| == 2 then
      if LeadingOnes(bs[0]) == 2 && IsContinuation(bs[1]) then
        var cp := (bs[0] as int - 0xC0) * 64 + (bs[1] as int - 0x80);
        if cp >= 0x80 then Some(cp) else None
      else None
    else if |bs| == 3 then
      if LeadingOnes(bs[0]) == 3 && IsContinuation(bs[1]) && IsContinuation(bs[2]) then
        var cp := (bs[0] as int - 0xE0) * 4096 + (bs[1] as int - 0x80) * 64 + (bs[2] as int - 0x80);
        if cp >= 0x800 && !(0xD800 <= cp < 0xE000) then Some(cp) else None
      else None
    else if |bs| == 4 then
      if LeadingOnes(bs[0]) == 4 && IsContinuation(bs[1]) && IsContinuation(bs[2]) && IsContinuation(bs[3]) then
        var cp := (bs[0] as int - 0xF0) * 262144 + (bs[1] as int - 0x80) * 4096
          + (bs[2] as int - 0x80) * 64 + (bs[3] as int - 0x80);
        if 0x10000 <= cp < 0x11_0000 then Some(cp) else None
      else None
    else None
  }

  // ---------------------------------------------------------------------
  // Encoding

  /** `%` and the byte as two upper-case hexadecimal digits. */
  function Percent(b: Byte): (r: string)
    ensures |r| == 3 && r[0] == '%'
  {
    ['%', HexDigit(b / 16), HexDigit(b % 16)]
  }

  function PercentBytes(bs: seq<Byte>): (r: string)
    ensures |r| == 3 * |bs|
  {
    if bs == [] then [] else Percent(bs[0]) + PercentBytes(bs[1..])
  }

  function EncodeChar(c: char): string {
    if IsUnreserved(c) then [c] else PercentBytes(Utf8(c))
  }

  /** Output of the encoder: a sequence of unreserved characters and
      escapes, each escape being '%' and two upper-case hexadecimal
      digits. */
  predicate IsEncoded(s: string)
    decreases |s|
  {
    if s == [] then true
    else if s[0] == '%' then
      |s| >= 3 && IsUpperHexDigit(s[1]) && IsUpperHexDigit(s[2]) && IsEncoded(s[3..])
    else IsUnreserved(s[0]) && IsEncoded(s[1..])
  }

  /** `encodeURIComponent`. A Dafny string holds no lone surrogate, so the
      URIError the encoder raises for one cannot arise here. */
  function Encode(s: string): (r: string)
    ensures IsEncoded(r)
    ensures |r| >= |s|
  {
    if s == [] then []
    else
      EncodedChar(s[0]);
      EncodedConcat(EncodeChar(s[0]), Encode(s[1..]));
      EncodeChar(s[0]) + Encode(s[1..])
  }

  lemma EncodedChar(c: char)
    ensures IsEncoded(EncodeChar(c)) && |EncodeChar(c)| >= 1
  {
    if !IsUnreserved(c) {
      EncodedPercentBytes(Utf8(c));
    } else {
      assert [c][1..] == [];
    }
  }

  lemma {:induction false} EncodedPercentBytes(bs: seq<Byte>)
    ensures IsEncoded(PercentBytes(bs))
  {
    if bs != [] {
      EncodedPercentBytes(bs[1..]);
      var s := PercentBytes(bs);
      assert s[3..] == PercentBytes(bs[1..]);
      assert s[0] == '%' && s[1] == HexDigit(bs[0] / 16) && s[2] == HexDigit(bs[0] % 16);
    }
  }

  lemma {:induction false} EncodedConcat(a: string, b: string)
    requires IsEncoded(a) && IsEncoded(b)
    ensures IsEncoded(a + b)
    decreases |a|
  {
    if a == [] {
      assert a + b == b;
    } else if a[0] == '%' {
      assert (a + b)[3..] == a[3..] + b;
      EncodedConcat(a[3..], b);
    } else {
      assert (a + b)[1..] == a[1..] + b;
      EncodedConcat(a[1..], b);
    }
  }

  /** An encoded string holds only unreserved characters and '%'. */
  lemma {:induction false} EncodedChars(s: string)
    requires IsEncoded(s)
    ensures forall i :: 0 <= i < |s| ==> IsUnreserved(s[i]) || s[i] == '%'
    decreases |s|
  {
    if s != [] {
      var k := if s[0] == '%' then 3 else 1;
      EncodedChars(s[k..]);
      forall i | 0 <= i < |s| ensures IsUnreserved(s[i]) || s[i] == '%' {
        if i >= k { assert s[i] == s[k..][i - k]; }
      }
    }
  }

  /** None of the characters that delimit a URI query survives encoding. */
  lemma EncodedHasNoDelimiter(s: string)
    ensures '&' !in Encode(s) && '?' !in Encode(s) && '=' !in Encode(s) && '#' !in Encode(s)
    ensures ' ' !in Encode(s) && '\n' !in Encode(s) && '\r' !in Encode(s)
    ensures '\U{2028}' !in Encode(s) && '\U{2029}' !in Encode(s)
  {
    var r := Encode(s);
    EncodedChars(r);
    forall i | 0 <= i < |r|
      ensures r[i] != '&' && r[i] != '?' && r[i] != '=' && r[i] != '#' && r[i] != ' '
      ensures r[i] != '\n' && r[i] != '\r' && r[i] != '\U{2028}' && r[i] != '\U{2029}'
    {
      assert IsUnreserved(r[i]) || r[i] == '%';
    }
  }

  // ---------------------------------------------------------------------
  // Decoding

  datatype UriError = Malformed

  /** The byte a `%hh` escape at the start of `s` stands for. */
  function ReadEscape(s: string): (r: Option<Byte>)
    ensures r.Some? ==> |s| >= 3 && s[0] == '%'
  {
    if |s| >= 3 && s[0] == '%' then
      match (HexValue(s[1]), HexValue(s[2]))
      case (Some(h), Some(l)) => Some(h * 16 + l)
      case _ => None
    else None
  }

  /** `count` consecutive `%hh` escapes at the start of `s`. */
  function EscapedBytes(s: string, count: nat): (r: Option<seq<Byte>>)
    ensures r.Some? ==> |r.value| == count && 3 * count <= |s|
  {
    if count == 0 then Some([])
    else
      match ReadEscape(s)
      case None => None
      case Some(b) =>
        match EscapedBytes(s[3..], count - 1)
        case None => None
        case Some(rest) => Some([b] + rest)
  }

  /** One escaped character at the start of `s`, which begins with '%':
      the lead byte gives the length n of the UTF-8 sequence (n of 1 or
      more than 4 is malformed); n - 1 further escapes follow, and the n
      bytes must be a valid UTF-8 encoding. A one-byte escape decodes to
      that character whatever it is, '%' included. Returns the character
      and the number of input characters consumed. */
  function DecodeEscape(s: string): (r: Result<(char, nat), UriError>)
    ensures r.Ok? ==> 3 <= r.value.1 <= |s| && r.value.1 % 3 == 0
  {
    match ReadEscape(s)
    case None => Err(Malformed)
    case Some(b) =>
      var n := LeadingOnes(b);
      if n == 0 then Ok((b as char, 3))
      else if n == 1 || n > 4 then Err(Malformed)
      else
        match EscapedBytes(s[3..], n - 1)
        case None => Err(Malformed)
        case Some(rest) =>
          match Utf8Decode([b] + rest)
          case None => Err(Malformed)
          case Some(cp) => Ok((cp as char, 3 * n))
  }

  /** `decodeURIComponent`: every escape is decoded, nothing is reserved,
      and a malformed escape anywhere makes the whole call fail. */
  function Decode(s: string): (r: Result<string, UriError>)
    ensures r.Ok? ==> |r.value| <= |s|
    decreases |s|
  {
    if s == [] then Ok([])
    else if s[0] != '%' then
      match Decode(s[1..])
      case Ok(t) => Ok([s[0]] + t)
      case Err(e) => Err(e)
    else
      match DecodeEscape(s)
      case Err(e) => Err(e)
      case Ok((c, used)) =>
        match Decode(s[used..])
        case Ok(t) => Ok([c] + t)
        case Err(e) => Err(e)
  }

  // ---------------------------------------------------------------------
  // When decoding throws

  /** Text without '%' passes through decoding unchanged, so it neither
      causes nor hides a failure in what follows. */
  lemma {:induction false} DecodeAfterPlain(x: string, t: string)
    requires '%' !in x
    ensures Decode(x + t).Err? <==> Decode(t).Err?
    ensures Decode(t).Ok? ==> Decode(x + t) == Ok(x + Decode(t).value)
    decreases |x|
  {
    if x == [] {
      assert x + t == t;
      if Decode(t).Ok? {
        assert x + Decode(t).value == Decode(t).value;
      }
    } else {
      var s := x + t;
      assert s[0] == x[0] && x[0] in x;
      assert s[1..] == x[1..] + t;
      DecodeAfterPlain(x[1..], t);
      if Decode(t).Ok? {
        assert [x[0]] + (x[1..] + Decode(t).value) == x + Decode(t).value;
      }
    }
  }

  /** The first escape of the text decides: when it is malformed the call
      fails, whatever follows it. */
  lemma DecodeFailsAtEscape(x: string, y: string)
    requires '%' !in x && DecodeEscape("%" + y).Err?
    ensures Decode(x + ("%" + y)).Err?
  {
    DecodeAfterPlain(x, "%" + y);
  }

  /** A '%' that is not followed by two hexadecimal digits fails. */
  lemma DecodeBadHex(x: string, y: string)
    requires '%' !in x && ReadEscape("%" + y).None?
    ensures Decode(x + ("%" + y)).Err?
  {
    DecodeFailsAtEscape(x, y);
  }

  /** An escaped lead byte that announces no valid length (a continuation
      byte, or more than four bytes) fails. */
  lemma DecodeBadLead(x: string, y: string)
    requires '%' !in x && ReadEscape("%" + y).Some?
    requires LeadingOnes(ReadEscape("%" + y).value) == 1 || LeadingOnes(ReadEscape("%" + y).value) > 4
    ensures Decode(x + ("%" + y)).Err?
  {
    DecodeFailsAtEscape(x, y);
  }

  // ---------------------------------------------------------------------
  // Decoding undoes encoding

  lemma ReadPercent(b: Byte, rest: string)
    ensures ReadEscape(Percent(b) + rest) == Some(b)
  {
    var s := Percent(b) + rest;
    assert s[1] == HexDigit(b / 16) && s[2] == HexDigit(b % 16);
    HexValueOfDigit(b / 16);
    HexValueOfDigit(b % 16);
  }

  lemma {:induction false} ReadPercentBytes(bs: seq<Byte>, rest: string)
    ensures EscapedBytes(PercentBytes(bs) + rest, |bs|) == Some(bs)
  {
    if bs != [] {
      var s := PercentBytes(bs) + rest;
      assert s == Percent(bs[0]) + (PercentBytes(bs[1..]) + rest);
      ReadPercent(bs[0], PercentBytes(bs[1..]) + rest);
      assert s[3..] == PercentBytes(bs[1..]) + rest;
      ReadPercentBytes(bs[1..], rest);
      assert [bs[0]] + bs[1..] == bs;
    }
  }

  /** The lead byte announces the length of the encoding, and the bytes
      decode back to the character. */
  lemma Utf8Decodes(c: char)
    ensures LeadingOnes(Utf8(c)[0]) == if |Utf8(c)| == 1 then 0 else |Utf8(c)|
    ensures Utf8Decode(Utf8(c)) == Some(c as int)
  {
    var cp := c as int;
    if cp < 0x80 {
    } else if cp < 0x800 {
      Utf8Two(cp);
    } else if cp < 0x10000 {
      Utf8Three(cp);
    } else {
      Utf8Four(cp);
    }
  }

  lemma Utf8Two(cp: int)
    requires 0x80 <= cp < 0x800
    ensures var bs: seq<Byte> := [0xC0 + cp / 64, 0x80 + cp % 64];
      LeadingOnes(bs[0]) == 2 && Utf8Decode(bs) == Some(cp)
  {
    Split64(cp);
  }

  lemma Utf8Three(cp: int)
    requires 0x800 <= cp < 0x10000 && !(0xD800 <= cp < 0xE000)
    ensures var bs: seq<Byte> := [0xE0 + cp / 4096, 0x80 + (cp / 64) % 64, 0x80 + cp % 64];
      LeadingOnes(bs[0]) == 3 && Utf8Decode(bs) == Some(cp)
  {
    Split64(cp);
    Split64(cp / 64);
    assert cp / 64 / 64 == cp / 4096;
  }

  lemma Utf8Four(cp: int)
    requires 0x10000 <= cp < 0x11_0000
    ensures var bs: seq<Byte> := [0xF0 + cp / 262144, 0x80 + (cp / 4096) % 64, 0x80 + (cp / 64) % 64, 0x80 + cp % 64];
      LeadingOnes(bs[0]) == 4 && Utf8Decode(bs) == Some(cp)
  {
    Split64(cp);
    Split64(cp / 64);
    Split64(cp / 4096);
    assert cp / 64 / 64 == cp / 4096;
    assert cp / 4096 / 64 == cp / 262144;
  }

  lemma Split64(x: nat)
    ensures x == (x / 64) * 64 + x % 64 && 0 <= x % 64 < 64
  {
  }

  /** An escaped character at the start of the text is read back whole. */
  lemma DecodeEscapeOfChar(c: char, rest: string)
    requires !IsUnreserved(c)
    ensures DecodeEscape(EncodeChar(c) + rest) == Ok((c, |EncodeChar(c)|))
  {
    var bs := Utf8(c);
    var s := EncodeChar(c) + rest;
    var tail := bs[1..];
    assert bs == [bs[0]] + tail;
    assert s == Percent(bs[0]) + (PercentBytes(tail) + rest);
    ReadPercent(bs[0], PercentBytes(tail) + rest);
    Utf8Decodes(c);
    if |bs| > 1 {
      assert s[3..] == PercentBytes(tail) + rest;
      ReadPercentBytes(tail, rest);
    }
  }

  /** Decoding inverts encoding for every string. */
  lemma {:induction false} DecodeEncode(s: string)
    ensures Decode(Encode(s)) == Ok(s)
    decreases |s|
  {
    if s != [] {
      var e := Encode(s[1..]);
      var t := EncodeChar(s[0]) + e;
      assert Encode(s) == t;
      DecodeEncode(s[1..]);
      if IsUnreserved(s[0]) {
        assert t[0] == s[0] && t[1..] == e;
      } else {
        DecodeEscapeOfChar(s[0], e);
        assert t[|EncodeChar(s[0])|..] == e;
      }
      assert [s[0]] + s[1..] == s;
    }
  }

  predicate AllUnreserved(s: string) {
    forall i :: 0 <= i < |s| ==> IsUnreserved(s[i])
  }

  lemma AllUnreservedCons(s: string)
    requires s != []
    ensures AllUnreserved(s) <==> IsUnreserved(s[0]) && AllUnreserved(s[1..])
  {
    if IsUnreserved(s[0]) && AllUnreserved(s[1..]) {
      forall i | 0 <= i < |s| ensures IsUnreserved(s[i]) {
        if i > 0 { assert s[i] == s[1..][i - 1]; }
      }
    }
    if AllUnreserved(s) {
      forall i | 0 <= i < |s[1..]| ensures IsUnreserved(s[1..][i]) {
        assert s[1..][i] == s[i + 1];
      }
    }
  }

  /** A reserved first character grows the output, so it differs. */
  lemma EncodeReservedHead(s: string)
    requires s != [] && !IsUnreserved(s[0])
    ensures Encode(s) != s
  {
    assert |EncodeChar(s[0])| >= 3;
    assert |Encode(s)| == |EncodeChar(s[0])| + |Encode(s[1..])|;
  }

  /** An unreserved first character is copied, so the output equals the
      input exactly when the rest is unchanged. */
  lemma EncodeUnreservedHead(s: string)
    requires s != [] && IsUnreserved(s[0])
    ensures Encode(s) == s <==> Encode(s[1..]) == s[1..]
  {
    var e := Encode(s[1..]);
    assert Encode(s) == [s[0]] + e;
    if Encode(s) == s {
      assert e == ([s[0]] + e)[1..] == s[1..];
    }
    if e == s[1..] {
      assert [s[0]] + s[1..] == s;
    }
  }

  /** Encoding changes a string exactly when it holds a character outside
      the unreserved set. */
  lemma {:induction false} EncodeIdentity(s: string)
    ensures Encode(s) == s <==> AllUnreserved(s)
    decreases |s|
  {
    if s != [] {
      AllUnreservedCons(s);
      if IsUnreserved(s[0]) {
        EncodeIdentity(s[1..]);
        EncodeUnreservedHead(s);
      } else {
        EncodeReservedHead(s);
      }
    }
  }

  /** Text without '%' decodes to itself. */
  lemma {:induction false} DecodePlain(s: string)
    requires '%' !in s
    ensures Decode(s) == Ok(s)
    decreases |s|
  {
    if s != [] {
      assert s[0] != '%';
      assert '%' !in s[1..] by {
        forall k | 0 <= k < |s[1..]| ensures s[1..][k] != '%' {
          assert s[1..][k] == s[k + 1];
        }
      }
      DecodePlain(s[1..]);
      assert [s[0]] + s[1..] == s;
    }
  }

  /** A Latin-1 escape such as `%E9` announces a three-byte sequence that
      is not there, so the whole text fails to decode. */
  lemma LatinOneEscapeFails()
    ensures Decode("caf%E9").Err?
  {
    var s := "caf%E9";
    assert s[1..] == "af%E9" && s[1..][1..] == "f%E9" && s[1..][1..][1..] == "%E9";
    assert ReadEscape("%E9") == Some(0xE9);
    assert EscapedBytes("", 2) == None;
    assert DecodeEscape("%E9").Err?;
  }

  /** Hexadecimal digits are read in either case; `%25` is '%' itself. */
  lemma LowerCaseEscape()
    ensures Decode("%2f%25") == Ok("/%")
  {
    var s := "%2f%25";
    var t := "%25";
    assert ReadEscape(s) == Some(0x2F);
    assert DecodeEscape(s) == Ok(('/', 3));
    assert s[3..] == t;
    assert ReadEscape(t) == Some(0x25);
    assert DecodeEscape(t) == Ok(('%', 3));
    assert t[3..] == "";
    assert Decode(t[3..]) == Ok([]);
    assert t[0] == '%';
    assert Decode(t) == Ok(['%'] + []);
    assert ['%'] + [] == ['%'];
    assert Decode(s[3..]) == Ok(['%']);
    assert s[0] == '%';
    assert Decode(s) == Ok(['/'] + ['%']);
    assert ['/'] + ['%'] == "/%";
  }
}
