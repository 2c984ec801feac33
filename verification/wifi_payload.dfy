/** The Wi-Fi payload `WIFI:T:<enc>;S:<ssid>;P:<password>;H:<hidden>;;`
    (the de facto format ZXing reads) and the extraction of its fields from
    an AI reply. */
module WifiPayload {
  import opened Wrappers
  import opened JsString
  import opened QrTypes

  /** The characters the encoder protects with a backslash. */
  predicate IsSpecial(c: char) {
    c == '\\' || c == ';' || c == ':' || c == ','
  }

  function CountSpecial(s: string): nat {
    if s == [] then 0 else (if IsSpecial(s[0]) then 1 else 0) + CountSpecial(s[1..])
  }

  function EscapeChar(c: char): string {
    if IsSpecial(c) then ['\\', c] else [c]
  }

  /** The encoder's escape: one global left-to-right replacement that puts
      a backslash before every special character. A backslash already in
      the input is itself escaped, so it never escapes its neighbour. */
  function Escape(s: string): (r: string)
    ensures |r| == |s| + CountSpecial(s)
  {
    if s == [] then [] else EscapeChar(s[0]) + Escape(s[1..])
  }

  /** The extractor's unescape: one global left-to-right replacement that
      drops a backslash standing before a special character; any other
      backslash is kept. */
  function Unescape(s: string): (r: string)
    ensures |r| <= |s|
    ensures '\\' !in s ==> r == s
    decreases |s|
  {
    if |s| >= 2 && s[0] == '\\' && IsSpecial(s[1]) then [s[1]] + Unescape(s[2..])
    else if s == [] then []
    else [s[0]] + Unescape(s[1..])
  }

  /** `WIFI:T:<enc>;` */
  function Head(enc: string): string {
    "WIFI:T:" + enc + ";"
  }

  /** `<key>:<escaped value>;` */
  function Field(key: char, value: string): string {
    [key, ':'] + (Escape(value) + ";")
  }

  /** `P:<escaped password>;`, only when the network is not open. */
  function PasswordField(enc: string, password: string): string {
    if enc != OpenNetwork then Field('P', password) else ""
  }

  /** `H:true;;` or `H:false;;`, which also closes the payload. */
  function HiddenField(hidden: bool): string {
    if hidden then "H:true;;" else "H:false;;"
  }

  /** The payload the Wi-Fi tab renders once the SSID is not blank:
      `WIFI:T:<enc>;S:<ssid>;` then `P:<password>;` unless the encryption
      is "nopass", then `H:true;;` or `H:false;;`, SSID and password
      escaped. */
  function Encode(w: WifiFields): (r: string)
    ensures |r| == |Head(w.encryption)| + 3 + |w.ssid| + CountSpecial(w.ssid)
                   + (if w.encryption != OpenNetwork then 3 + |w.password| + CountSpecial(w.password) else 0)
                   + (if w.hidden then 8 else 9)
  {
    Head(w.encryption) + Body(w)
  }

  /** Everything after the `T:` segment. */
  function Body(w: WifiFields): string {
    Field('S', w.ssid) + (PasswordField(w.encryption, w.password) + HiddenField(w.hidden))
  }

  /** The text after the first occurrence of `key:` in `text`, if any. */
  function AfterKey(text: string, key: char): (r: Option<string>)
    ensures r.None? <==> NoKeyIn(text, key)
    decreases |text|
  {
    if |text| < 2 then None
    else if text[0] == key && text[1] == ':' then Some(text[2..])
    else AfterKey(text[1..], key)
  }

  /** `AfterKey` stops at the first `key:`: the value is what follows it,
      and no `key:` begins earlier in the text. */
  lemma {:induction false} AfterKeyFirst(text: string, key: char)
    requires AfterKey(text, key).Some?
    ensures var rest := AfterKey(text, key).value; var at := |text| - |rest| - 2;
      && 0 <= at && text[at] == key && text[at + 1] == ':' && text[at + 2..] == rest
      && NoKeyIn(text[..at + 1], key)
    decreases |text|
  {
    if !(text[0] == key && text[1] == ':') {
      var t := text[1..];
      AfterKeyFirst(t, key);
      var rest := AfterKey(text, key).value;
      var at := |text| - |rest| - 2;
      assert t[at + 1..] == text[at + 2..];
      var before := text[..at + 1];
      forall i | 0 <= i < |before| - 1 ensures !(before[i] == key && before[i + 1] == ':') {
        if i > 0 {
          assert t[..at][i - 1] == before[i] && t[..at][i] == before[i + 1];
        }
      }
    }
  }

  /** The as-written key lookup: the text after the first `key:` up to the
      next `;` or the end, unescaped, or "" when `key:` does not occur. The
      value stops at the first `;` whether or not it is escaped. */
  function ParseKey(text: string, key: char): (r: string)
    ensures NoKeyIn(text, key) ==> r == ""
  {
    match AfterKey(text, key)
    case None => ""
    case Some(rest) => Unescape(rest[..IndexOf(rest, ';')])
  }

  /** The AI-fill step of the Wi-Fi tab: SSID, password and encryption are
      overwritten from the reply (encryption falling back to "WPA" when the
      `T:` value is empty or absent); the hidden flag is never touched. */
  function Extract(w: WifiFields, reply: string): (r: WifiFields)
    ensures r.hidden == w.hidden
    ensures r.encryption != ""
    ensures r.ssid == ParseKey(reply, 'S') && r.password == ParseKey(reply, 'P')
    ensures r.encryption == DefaultEncryption <==> ParseKey(reply, 'T') in {"", DefaultEncryption}
    ensures ParseKey(reply, 'T') != "" ==> r.encryption == ParseKey(reply, 'T')
  {
    var t := ParseKey(reply, 'T');
    w.(ssid := ParseKey(reply, 'S'), password := ParseKey(reply, 'P'),
       encryption := if t == "" then DefaultEncryption else t)
  }

  // ---------------------------------------------------------------------
  // Escape and unescape

  /** Unescaping one escaped character yields that character. */
  lemma UnescapeEscapeChar(c: char, tail: string)
    ensures Unescape(EscapeChar(c) + tail) == [c] + Unescape(tail)
  {
    var t := EscapeChar(c) + tail;
    if IsSpecial(c) {
      assert t[0] == '\\' && t[1] == c;
      assert t[2..] == tail;
    } else {
      assert t[0] == c;
      assert t[1..] == tail;
    }
  }

  lemma {:induction false} UnescapeAfterEscape(s: string, rest: string)
    ensures Unescape(Escape(s) + rest) == s + Unescape(rest)
    decreases |s|
  {
    if s == [] {
      assert Escape(s) + rest == rest;
    } else {
      var tail := Escape(s[1..]) + rest;
      EscapeRegroup(s, rest);
      UnescapeEscapeChar(s[0], tail);
      UnescapeAfterEscape(s[1..], rest);
      ConsRegroup(s, Unescape(rest));
    }
  }

  /** The escape of a non-empty string, followed by more text, is the
      escape of its first character followed by the rest. */
  lemma EscapeRegroup(s: string, rest: string)
    requires s != []
    ensures Escape(s) + rest == EscapeChar(s[0]) + (Escape(s[1..]) + rest)
  {
  }

  lemma ConsRegroup(s: string, rest: string)
    requires s != []
    ensures [s[0]] + (s[1..] + rest) == s + rest
  {
    assert s == [s[0]] + s[1..];
  }

  /** Unescaping undoes escaping, for every string. */
  lemma UnescapeEscape(s: string)
    ensures Unescape(Escape(s)) == s
  {
    UnescapeAfterEscape(s, []);
    assert Escape(s) + [] == Escape(s);
  }

  /** Strings without a backslash are left alone by unescaping. */
  lemma {:induction false} UnescapePlain(s: string)
    requires '\\' !in s
    ensures Unescape(s) == s
    decreases |s|
  {
    if s != [] {
      UnescapePlain(s[1..]);
    }
  }

  lemma {:induction false} EscapeConcat(a: string, b: string)
    ensures Escape(a + b) == Escape(a) + Escape(b)
    decreases |a|
  {
    if a == [] {
      assert a + b == b;
    } else {
      assert (a + b)[1..] == a[1..] + b;
      EscapeConcat(a[1..], b);
    }
  }

  /** Escaping adds backslashes and nothing else. */
  lemma {:induction false} EscapeChars(s: string, c: char)
    requires c != '\\'
    ensures c in Escape(s) <==> c in s
    decreases |s|
  {
    if s != [] {
      EscapeChars(s[1..], c);
      assert c in s <==> c == s[0] || c in s[1..];
    }
  }

  // ---------------------------------------------------------------------
  // Locating `key:` in a payload

  /** No `key:` begins inside `s`. */
  predicate NoKeyIn(s: string, key: char) {
    forall i :: 0 <= i < |s| - 1 ==> !(s[i] == key && s[i + 1] == ':')
  }

  lemma {:induction false} AfterKeySkip(a: string, b: string, key: char)
    requires NoKeyIn(a, key) && (a == [] || a[|a| - 1] != key)
    ensures AfterKey(a + b, key) == AfterKey(b, key)
    decreases |a|
  {
    if a == [] {
      assert a + b == b;
    } else {
      assert (a + b)[1..] == a[1..] + b;
      AfterKeySkip(a[1..], b, key);
    }
  }

  lemma AfterKeyAtField(key: char, x: string, rest: string)
    ensures AfterKey(Field(key, x) + rest, key) == Some(Escape(x) + ([';'] + rest))
  {
    var t := Field(key, x) + rest;
    assert t[0] == key && t[1] == ':';
    assert t[2..] == Escape(x) + ([';'] + rest);
  }

  lemma NoKeyInConcat(a: string, b: string, key: char)
    requires NoKeyIn(a, key) && NoKeyIn(b, key)
    requires !(a != [] && b != [] && a[|a| - 1] == key && b[0] == ':')
    ensures NoKeyIn(a + b, key)
  {
    var s := a + b;
    forall i | 0 <= i < |s| - 1 ensures !(s[i] == key && s[i + 1] == ':') {
      if i < |a| - 1 {
        assert s[i] == a[i] && s[i + 1] == a[i + 1];
      } else if i == |a| - 1 {
        assert s[i] == a[|a| - 1] && s[i + 1] == b[0];
      } else {
        assert s[i] == b[i - |a|] && s[i + 1] == b[i + 1 - |a|];
      }
    }
  }

  /** Inside an escaped string every `:` follows a backslash, and an escaped
      string never starts with `:`; so no `key:` begins inside it. */
  lemma {:induction false} NoKeyInEscape(s: string, key: char)
    requires key != '\\'
    ensures NoKeyIn(Escape(s), key)
    ensures Escape(s) == [] || Escape(s)[0] != ':'
    decreases |s|
  {
    if s != [] {
      NoKeyInEscape(s[1..], key);
      NoKeyInConcat(EscapeChar(s[0]), Escape(s[1..]), key);
    }
  }

  /** A field for another key holds no `key:` and does not end in `key`. */
  lemma NoKeyInField(other: char, x: string, key: char)
    requires key != other && key != '\\' && key != ';'
    ensures NoKeyIn(Field(other, x), key)
    ensures Field(other, x)[|Field(other, x)| - 1] != key
  {
    NoKeyInEscape(x, key);
    NoKeyInConcat(Escape(x), ";", key);
    NoKeyInConcat([other, ':'], Escape(x) + ";", key);
  }

  /** The three encryption values the Wi-Fi form offers. */
  predicate IsOffered(enc: string) {
    enc == "WPA" || enc == "WEP" || enc == OpenNetwork
  }

  lemma HeadHasNoKey(enc: string, key: char)
    requires IsOffered(enc) && (key == 'S' || key == 'P')
    ensures NoKeyIn(Head(enc), key)
    ensures Head(enc)[|Head(enc)| - 1] != key
  {
    if enc == "WPA" {
      assert Head(enc) == "WIFI:T:WPA;";
    } else if enc == "WEP" {
      assert Head(enc) == "WIFI:T:WEP;";
    } else {
      assert Head(enc) == "WIFI:T:nopass;";
    }
  }

  lemma HiddenHasNoKey(hidden: bool, key: char)
    requires key == 'S' || key == 'P'
    ensures NoKeyIn(HiddenField(hidden), key)
    ensures HiddenField(hidden)[|HiddenField(hidden)| - 1] != key
  {
    if hidden {
      assert HiddenField(hidden) == "H:true;;";
    } else {
      assert HiddenField(hidden) == "H:false;;";
    }
  }

  // ---------------------------------------------------------------------
  // Reading a value back

  /** The as-written value scan over `Escape(x)` followed by `;` stops at
      that `;` when `x` has none. */
  lemma CutPlain(x: string, rest: string)
    requires ';' !in x
    ensures var t := Escape(x) + ([';'] + rest); t[..IndexOf(t, ';')] == Escape(x)
  {
    EscapeChars(x, ';');
    IndexOfAfter(Escape(x), ';', rest);
  }

  /** Escaping a string that starts with `;`. */
  lemma EscapeSemicolonFirst(q: string)
    ensures Escape([';'] + q) == ['\\', ';'] + Escape(q)
  {
    assert ([';'] + q)[1..] == q;
  }

  /** Otherwise it stops at the first escaped `;`, keeping its backslash. */
  lemma CutEscaped(x: string, rest: string)
    requires ';' in x
    ensures var t := Escape(x) + ([';'] + rest);
      t[..IndexOf(t, ';')] == Escape(x[..IndexOf(x, ';')]) + ['\\']
  {
    var j := IndexOf(x, ';');
    var p := x[..j];
    var q := x[j + 1..];
    var w := [';'] + rest;
    SplitAtSemicolon(x);
    var a := Escape(p) + ['\\'];
    var b := [';'] + (Escape(q) + w);
    var t := Escape(x) + w;
    Regroup(Escape(p), Escape(q), rest);
    EscapeChars(p, ';');
    IndexOfSkip(a, b, ';');
    assert t[..|a|] == a;
  }

  /** The text around an escaped `;`, cut just after its backslash. */
  lemma Regroup(e1: string, e2: string, rest: string)
    ensures (e1 + (['\\', ';'] + e2)) + ([';'] + rest) == (e1 + ['\\']) + ([';'] + (e2 + ([';'] + rest)))
  {
  }

  /** Escaping splits at the first `;`. */
  lemma SplitAtSemicolon(x: string)
    requires ';' in x
    ensures Escape(x) == Escape(x[..IndexOf(x, ';')]) + (['\\', ';'] + Escape(x[IndexOf(x, ';') + 1..]))
  {
    var j := IndexOf(x, ';');
    assert x == x[..j] + ([';'] + x[j + 1..]);
    EscapeConcat(x[..j], [';'] + x[j + 1..]);
    EscapeSemicolonFirst(x[j + 1..]);
  }

  /** Reading back `Escape(x)` followed by `;` with the as-written parser:
      the value is `x` itself exactly when `x` has no `;`; otherwise it is
      cut at the escaped `;`, leaving the prefix and a dangling backslash. */
  lemma ReadBack(x: string, rest: string)
    ensures var t := Escape(x) + ([';'] + rest);
      ';' !in x ==> Unescape(t[..IndexOf(t, ';')]) == x
    ensures var t := Escape(x) + ([';'] + rest);
      ';' in x ==> Unescape(t[..IndexOf(t, ';')]) == x[..IndexOf(x, ';')] + "\\"
  {
    if ';' !in x {
      CutPlain(x, rest);
      UnescapeEscape(x);
    } else {
      CutEscaped(x, rest);
      UnescapeAfterEscape(x[..IndexOf(x, ';')], ['\\']);
    }
  }

  /** A `;`-cut value never equals the string it was cut from. */
  lemma CutDiffers(x: string)
    requires ';' in x
    ensures x[..IndexOf(x, ';')] + "\\" != x
  {
    var j := IndexOf(x, ';');
    assert (x[..j] + "\\")[j] == '\\';
  }

  /** `parse` of a key whose field is found at the front of `text`. */
  lemma ParseKeyAtField(key: char, x: string, rest: string)
    ensures ParseKey(Field(key, x) + rest, key) == (if ';' in x then x[..IndexOf(x, ';')] + "\\" else x)
  {
    AfterKeyAtField(key, x, rest);
    ReadBack(x, rest);
  }

  // ---------------------------------------------------------------------
  // Round trips with the as-written extractor

  /** The encoder's SSID comes back from the as-written extractor exactly
      when it contains no `;`. */
  lemma SsidRoundTrip(w: WifiFields)
    requires IsOffered(w.encryption)
    ensures ParseKey(Encode(w), 'S') == w.ssid <==> ';' !in w.ssid
  {
    SsidReadBack(w);
    if ';' in w.ssid {
      CutDiffers(w.ssid);
    }
  }

  /** What the as-written extractor reads as the SSID of a payload: the
      SSID cut before its first `;`, where the escaping backslash is left. */
  lemma SsidReadBack(w: WifiFields)
    requires IsOffered(w.encryption)
    ensures ParseKey(Encode(w), 'S') == (if ';' in w.ssid then w.ssid[..IndexOf(w.ssid, ';')] + "\\" else w.ssid)
  {
    var tail := PasswordField(w.encryption, w.password) + HiddenField(w.hidden);
    HeadHasNoKey(w.encryption, 'S');
    AfterKeySkip(Head(w.encryption), Body(w), 'S');
    ParseKeyAtField('S', w.ssid, tail);
  }

  /** Everything before the password field holds no `P:`. */
  lemma NoPasswordKeyBefore(w: WifiFields)
    requires IsOffered(w.encryption)
    ensures NoKeyIn(Head(w.encryption) + Field('S', w.ssid), 'P')
    ensures Field('S', w.ssid)[|Field('S', w.ssid)| - 1] != 'P'
  {
    HeadHasNoKey(w.encryption, 'P');
    NoKeyInField('S', w.ssid, 'P');
    NoKeyInConcat(Head(w.encryption), Field('S', w.ssid), 'P');
  }

  /** The payload re-associated at the password field. */
  lemma SplitAtPassword(w: WifiFields)
    ensures Encode(w) == (Head(w.encryption) + Field('S', w.ssid)) + (PasswordField(w.encryption, w.password) + HiddenField(w.hidden))
  {
  }

  /** The encoder's password comes back exactly when it contains no `;`. */
  lemma PasswordRoundTrip(w: WifiFields)
    requires IsOffered(w.encryption) && w.encryption != OpenNetwork
    ensures ParseKey(Encode(w), 'P') == w.password <==> ';' !in w.password
  {
    NoPasswordKeyBefore(w);
    SplitAtPassword(w);
    AfterKeySkip(Head(w.encryption) + Field('S', w.ssid), Field('P', w.password) + HiddenField(w.hidden), 'P');
    ParseKeyAtField('P', w.password, HiddenField(w.hidden));
    if ';' in w.password {
      CutDiffers(w.password);
    }
  }

  /** An open network's payload has no `P:` at all, so the extracted
      password is "". */
  lemma OpenNetworkHasNoPassword(w: WifiFields)
    requires w.encryption == OpenNetwork
    ensures AfterKey(Encode(w), 'P') == None
    ensures ParseKey(Encode(w), 'P') == ""
  {
    NoPasswordKeyBefore(w);
    HiddenHasNoKey(w.hidden, 'P');
    var before := Head(w.encryption) + Field('S', w.ssid);
    NoKeyInConcat(before, HiddenField(w.hidden), 'P');
    SplitAtPassword(w);
    assert Encode(w) == (before + HiddenField(w.hidden)) + [];
    AfterKeySkip(before + HiddenField(w.hidden), [], 'P');
  }

  lemma HeadRegroup(enc: string, body: string)
    ensures Head(enc) + body == "WIFI:" + (['T', ':'] + (enc + ([';'] + body)))
  {
  }

  /** The value after `T:` in a payload with an offered encryption. */
  lemma AfterEncryptionKey(w: WifiFields)
    requires IsOffered(w.encryption)
    ensures AfterKey(Encode(w), 'T') == Some(w.encryption + ([';'] + Body(w)))
  {
    var after := w.encryption + ([';'] + Body(w));
    HeadRegroup(w.encryption, Body(w));
    assert NoKeyIn("WIFI:", 'T');
    AfterKeySkip("WIFI:", ['T', ':'] + after, 'T');
    assert (['T', ':'] + after)[2..] == after;
  }

  /** The offered encryption values hold no special character. */
  lemma OfferedIsPlain(enc: string)
    requires IsOffered(enc)
    ensures ';' !in enc
    ensures Escape(enc) == enc
  {
    if enc == "WPA" {
      LettersArePlain("WPA");
    } else if enc == "WEP" {
      LettersArePlain("WEP");
    } else {
      LettersArePlain("nopass");
    }
  }

  /** A word of ASCII letters is left alone by escaping. */
  lemma LettersArePlain(s: string)
    requires forall i :: 0 <= i < |s| ==> 'A' <= s[i] <= 'Z' || 'a' <= s[i] <= 'z'
    ensures ';' !in s && Escape(s) == s
  {
    EscapeIdentity(s);
  }

  /** The encryption comes back unchanged. */
  lemma EncryptionRoundTrip(w: WifiFields)
    requires IsOffered(w.encryption)
    ensures ParseKey(Encode(w), 'T') == w.encryption
  {
    AfterEncryptionKey(w);
    OfferedIsPlain(w.encryption);
    CutPlain(w.encryption, Body(w));
    UnescapeEscape(w.encryption);
  }

  /** Filling the Wi-Fi form from a payload the form itself produced: the
      encryption always survives and the hidden flag is the form's own;
      SSID and password survive exactly when they contain no `;`, and an
      open network's password comes back empty. */
  lemma ExtractAfterEncode(w: WifiFields, current: WifiFields)
    requires IsOffered(w.encryption)
    ensures var r := Extract(current, Encode(w));
      && r.encryption == w.encryption
      && r.hidden == current.hidden
      && (r.ssid == w.ssid <==> ';' !in w.ssid)
      && (w.encryption != OpenNetwork ==> (r.password == w.password <==> ';' !in w.password))
      && (w.encryption == OpenNetwork ==> r.password == "")
  {
    SsidRoundTrip(w);
    if w.encryption != OpenNetwork {
      PasswordRoundTrip(w);
    } else {
      OpenNetworkHasNoPassword(w);
    }
    EncryptionRoundTrip(w);
  }

  /** A concrete network whose SSID the as-written extractor cannot read
      back: "a;b" is encoded as `S:a\;b;` and read as `a\`. */
  lemma SemicolonSsidLost()
    ensures ParseKey(Encode(WifiFields("a;b", "", OpenNetwork, false)), 'S') == "a\\"
  {
    var w := WifiFields("a;b", "", OpenNetwork, false);
    SsidReadBack(w);
    assert w.ssid[1] == ';';
    assert IndexOf(w.ssid, ';') == 1;
    assert w.ssid[..1] == "a";
  }

  // ---------------------------------------------------------------------
  // Corrected extractor

  /** The value up to the first `;` that no backslash escapes: a backslash
      and the character after it are always taken together, and a lone
      backslash at the very end is kept. */
  function EscapedValue(s: string): (v: string)
    ensures StartsWith(s, v)
    ensures ';' in s && ('\\' !in s) ==> v == s[..IndexOf(s, ';')]
    decreases |s|
  {
    if s == [] || s[0] == ';' then []
    else if s[0] == '\\' && |s| >= 2 then s[..2] + EscapedValue(s[2..])
    else [s[0]] + EscapedValue(s[1..])
  }

  /** `parse(key)` with the value read up to the first unescaped `;`. */
  function ParseKeyFixed(text: string, key: char): string {
    match AfterKey(text, key)
    case None => ""
    case Some(rest) => Unescape(EscapedValue(rest))
  }

  /** The AI-fill step with the corrected parser. */
  function ExtractFixed(w: WifiFields, reply: string): (r: WifiFields)
    ensures r.hidden == w.hidden
    ensures r.encryption != ""
    ensures r.ssid == ParseKeyFixed(reply, 'S') && r.password == ParseKeyFixed(reply, 'P')
    ensures r.encryption == DefaultEncryption <==> ParseKeyFixed(reply, 'T') in {"", DefaultEncryption}
    ensures ParseKeyFixed(reply, 'T') != "" ==> r.encryption == ParseKeyFixed(reply, 'T')
  {
    var t := ParseKeyFixed(reply, 'T');
    w.(ssid := ParseKeyFixed(reply, 'S'), password := ParseKeyFixed(reply, 'P'),
       encryption := if t == "" then DefaultEncryption else t)
  }

  lemma EscapedValueStep(c: char, tail: string)
    ensures EscapedValue(EscapeChar(c) + tail) == EscapeChar(c) + EscapedValue(tail)
  {
    var t := EscapeChar(c) + tail;
    if IsSpecial(c) {
      assert t[0] == '\\' && t[..2] == EscapeChar(c) && t[2..] == tail;
    } else {
      assert t[0] == c && t[1..] == tail;
    }
  }

  lemma {:induction false} EscapedValueOfEscape(x: string, rest: string)
    ensures EscapedValue(Escape(x) + ([';'] + rest)) == Escape(x)
    decreases |x|
  {
    if x == [] {
      assert Escape(x) + ([';'] + rest) == [';'] + rest;
    } else {
      var tail := Escape(x[1..]) + ([';'] + rest);
      EscapeRegroup(x, [';'] + rest);
      EscapedValueStep(x[0], tail);
      EscapedValueOfEscape(x[1..], rest);
    }
  }

  /** `parse` with the corrected scan, at a field at the front of `text`. */
  lemma ParseKeyFixedAtField(key: char, x: string, rest: string)
    ensures ParseKeyFixed(Field(key, x) + rest, key) == x
  {
    AfterKeyAtField(key, x, rest);
    EscapedValueOfEscape(x, rest);
    UnescapeEscape(x);
  }

  lemma FixedSsidRoundTrip(w: WifiFields)
    requires IsOffered(w.encryption)
    ensures ParseKeyFixed(Encode(w), 'S') == w.ssid
  {
    HeadHasNoKey(w.encryption, 'S');
    AfterKeySkip(Head(w.encryption), Body(w), 'S');
    ParseKeyFixedAtField('S', w.ssid, PasswordField(w.encryption, w.password) + HiddenField(w.hidden));
  }

  lemma FixedPasswordRoundTrip(w: WifiFields)
    requires IsOffered(w.encryption)
    ensures ParseKeyFixed(Encode(w), 'P') == (if w.encryption == OpenNetwork then "" else w.password)
  {
    if w.encryption != OpenNetwork {
      NoPasswordKeyBefore(w);
      SplitAtPassword(w);
      AfterKeySkip(Head(w.encryption) + Field('S', w.ssid), Field('P', w.password) + HiddenField(w.hidden), 'P');
      ParseKeyFixedAtField('P', w.password, HiddenField(w.hidden));
    } else {
      OpenNetworkHasNoPassword(w);
    }
  }

  lemma FixedEncryptionRoundTrip(w: WifiFields)
    requires IsOffered(w.encryption)
    ensures ParseKeyFixed(Encode(w), 'T') == w.encryption
  {
    AfterEncryptionKey(w);
    OfferedIsPlain(w.encryption);
    EscapedValueOfEscape(w.encryption, Body(w));
    UnescapeEscape(w.encryption);
  }

  /** With the corrected parser every field the encoder wrote comes back,
      whatever characters the SSID and password contain. */
  lemma ExtractFixedAfterEncode(w: WifiFields, current: WifiFields)
    requires IsOffered(w.encryption)
    ensures var r := ExtractFixed(current, Encode(w));
      && r.ssid == w.ssid
      && r.password == (if w.encryption == OpenNetwork then "" else w.password)
      && r.encryption == w.encryption
      && r.hidden == current.hidden
  {
    FixedSsidRoundTrip(w);
    FixedPasswordRoundTrip(w);
    FixedEncryptionRoundTrip(w);
  }

  /** Strings without special characters are not changed by escaping. */
  lemma {:induction false} EscapeIdentity(s: string)
    requires forall i :: 0 <= i < |s| ==> !IsSpecial(s[i])
    ensures Escape(s) == s
    decreases |s|
  {
    if s != [] {
      EscapeIdentity(s[1..]);
      assert s == [s[0]] + s[1..];
    }
  }
}
