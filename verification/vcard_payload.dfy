/** The vCard 3.0 payload (RFC 2426) the business-card tab renders, and the
    line-oriented, case-insensitive lookup that fills the card's fields
    from an AI reply. */
module VCardPayload {
  import opened Wrappers
  import opened JsString
  import opened QrTypes

  // ---------------------------------------------------------------------
  // Encoding

  /** The ten candidate lines in their fixed order; an optional line is ""
      when its field is empty. Field values are not escaped. */
  function CandidateLines(v: VCardFields): seq<string> {
    [ "BEGIN:VCARD",
      "VERSION:3.0",
      "FN:" + v.name,
      "N:;" + v.name + ";;;",
      if v.org != "" then "ORG:" + v.org else "",
      if v.title != "" then "TITLE:" + v.title else "",
      if v.phone != "" then "TEL;TYPE=CELL:" + v.phone else "",
      if v.email != "" then "EMAIL;TYPE=INTERNET:" + v.email else "",
      if v.url != "" then "URL:" + v.url else "",
      "END:VCARD" ]
  }

  /** Keeps the non-empty strings, in order (an array's `filter(Boolean)`). */
  function NonEmpty(lines: seq<string>): (r: seq<string>)
    ensures |r| <= |lines|
  {
    if lines == [] then []
    else if lines[0] == "" then NonEmpty(lines[1..])
    else [lines[0]] + NonEmpty(lines[1..])
  }

  /** The filter keeps exactly the non-empty lines: everything it returns is
      a non-empty line of the input, and every non-empty input line survives. */
  lemma {:induction false} NonEmptyFilters(lines: seq<string>)
    ensures forall x :: x in NonEmpty(lines) <==> x in lines && x != ""
  {
    if lines != [] {
      NonEmptyFilters(lines[1..]);
      assert lines == [lines[0]] + lines[1..];
    }
  }

  /** The lines joined with a newline between neighbours (`join('\n')`). */
  function Join(lines: seq<string>): string
    decreases |lines|
  {
    if lines == [] then ""
    else if |lines| == 1 then lines[0]
    else lines[0] + "\n" + Join(lines[1..])
  }

  /** The payload the vCard tab renders once the name is not blank: the
      card's lines joined by newlines, and, when no field holds a line
      terminator, exactly those lines when split again. */
  function Encode(v: VCardFields): (r: string)
    ensures r == Join(CardLines(v))
    ensures FieldsOnOneLine(v) ==> Split(r) == CardLines(v)
  {
    LinesOfCard(v);
    if FieldsOnOneLine(v) then
      CardSplits(v);
      Join(NonEmpty(CandidateLines(v)))
    else Join(NonEmpty(CandidateLines(v)))
  }

  /** `[prefix + value]` when the value is non-empty, no line otherwise. */
  function Optional(prefix: string, value: string): seq<string> {
    if value == "" then [] else [prefix + value]
  }

  /** The card's lines written out: the four fixed lines, the optional ones
      in the order ORG, TITLE, TEL, EMAIL, URL, then the closing line. */
  function CardLines(v: VCardFields): seq<string> {
    ["BEGIN:VCARD", "VERSION:3.0", "FN:" + v.name, "N:;" + v.name + ";;;"]
    + (Optional("ORG:", v.org)
    + (Optional("TITLE:", v.title)
    + (Optional("TEL;TYPE=CELL:", v.phone)
    + (Optional("EMAIL;TYPE=INTERNET:", v.email)
    + (Optional("URL:", v.url)
    + ["END:VCARD"])))))
  }

  function PresentCount(v: VCardFields): nat {
    (if v.org != "" then 1 else 0) + (if v.title != "" then 1 else 0)
    + (if v.phone != "" then 1 else 0) + (if v.email != "" then 1 else 0)
    + (if v.url != "" then 1 else 0)
  }

  lemma NonEmptyCons(x: string, rest: seq<string>)
    ensures NonEmpty([x] + rest) == Keep(x) + NonEmpty(rest)
  {
    assert ([x] + rest)[1..] == rest;
  }

  function Keep(x: string): seq<string> {
    if x == "" then [] else [x]
  }

  /** Filtering a suffix of a list: its first line is kept or dropped,
      then the rest is filtered. */
  lemma NonEmptyStep(lines: seq<string>, k: nat)
    requires k < |lines|
    ensures NonEmpty(lines[k..]) == Keep(lines[k]) + NonEmpty(lines[k + 1..])
  {
    assert lines[k..] == [lines[k]] + lines[k + 1..];
    NonEmptyCons(lines[k], lines[k + 1..]);
  }

  /** Filtering the last six of ten lines, the closing one non-empty. */
  lemma NonEmptyOfLastSix(c: seq<string>)
    requires |c| == 10 && c[9] != ""
    ensures NonEmpty(c[4..])
         == Keep(c[4]) + (Keep(c[5]) + (Keep(c[6]) + (Keep(c[7]) + (Keep(c[8]) + [c[9]]))))
  {
    NonEmptyStep(c, 9);
    assert NonEmpty(c[10..]) == [];
    assert Keep(c[9]) + [] == [c[9]];
    NonEmptyStep(c, 8);
    NonEmptyStep(c, 7);
    NonEmptyStep(c, 6);
    NonEmptyStep(c, 5);
    NonEmptyStep(c, 4);
  }

  /** Filtering a ten-line list whose fixed lines are non-empty. */
  lemma NonEmptyOfTen(c: seq<string>)
    requires |c| == 10
    requires c[0] != "" && c[1] != "" && c[2] != "" && c[3] != "" && c[9] != ""
    ensures NonEmpty(c)
         == [c[0], c[1], c[2], c[3]]
            + (Keep(c[4]) + (Keep(c[5]) + (Keep(c[6]) + (Keep(c[7]) + (Keep(c[8]) + [c[9]])))))
  {
    NonEmptyOfLastSix(c);
    var r4 := NonEmpty(c[4..]);
    NonEmptyStep(c, 3);
    NonEmptyStep(c, 2);
    NonEmptyStep(c, 1);
    NonEmptyStep(c, 0);
    assert c[0..] == c;
    assert [c[0]] + ([c[1]] + ([c[2]] + ([c[3]] + r4))) == [c[0], c[1], c[2], c[3]] + r4;
  }

  /** Filtering the candidate lines keeps exactly the fixed lines and one
      line per non-empty optional field, in the fixed order; so the card
      has five lines plus one per non-empty optional field. */
  lemma LinesOfCard(v: VCardFields)
    ensures NonEmpty(CandidateLines(v)) == CardLines(v)
    ensures |CardLines(v)| == 5 + PresentCount(v)
  {
    var c := CandidateLines(v);
    NonEmptyOfTen(c);
    assert Keep(c[4]) == Optional("ORG:", v.org);
    assert Keep(c[5]) == Optional("TITLE:", v.title);
    assert Keep(c[6]) == Optional("TEL;TYPE=CELL:", v.phone);
    assert Keep(c[7]) == Optional("EMAIL;TYPE=INTERNET:", v.email);
    assert Keep(c[8]) == Optional("URL:", v.url);
  }

  // ---------------------------------------------------------------------
  // Splitting the payload back into lines

  /** `s.split('\n')`. */
  function Split(s: string): (r: seq<string>)
    ensures |r| > 0
    decreases |s|
  {
    var i := IndexOf(s, '\n');
    if i == |s| then [s] else [s[..i]] + Split(s[i + 1..])
  }

  /** Splitting at newlines undoes joining lines that hold none. */
  lemma {:induction false} SplitJoin(lines: seq<string>)
    requires |lines| > 0
    requires forall i :: 0 <= i < |lines| ==> '\n' !in lines[i]
    ensures Split(Join(lines)) == lines
    decreases |lines|
  {
    if |lines| > 1 {
      var s := Join(lines);
      assert s == lines[0] + (['\n'] + Join(lines[1..]));
      IndexOfAfter(lines[0], '\n', Join(lines[1..]));
      assert s[..|lines[0]|] == lines[0];
      assert s[|lines[0]| + 1..] == Join(lines[1..]);
      SplitJoin(lines[1..]);
    }
  }

  predicate FieldsOnOneLine(v: VCardFields) {
    && NoLineTerminator(v.name) && NoLineTerminator(v.org) && NoLineTerminator(v.title)
    && NoLineTerminator(v.phone) && NoLineTerminator(v.email) && NoLineTerminator(v.url)
  }

  /** When no field holds a line terminator, the payload's lines are
      exactly the card's lines: BEGIN first, END last, and five lines plus
      one per non-empty optional field. */
  lemma PayloadLines(v: VCardFields)
    requires FieldsOnOneLine(v)
    ensures Split(Encode(v)) == CardLines(v)
    ensures |Split(Encode(v))| == 5 + PresentCount(v)
    ensures Split(Encode(v))[0] == "BEGIN:VCARD" && Split(Encode(v))[|Split(Encode(v))| - 1] == "END:VCARD"
  {
    LinesOfCard(v);
  }

  /** The card's lines, joined and split again, when no field holds a line
      terminator. */
  lemma CardSplits(v: VCardFields)
    requires FieldsOnOneLine(v)
    ensures Split(Join(CardLines(v))) == CardLines(v)
  {
    var lines := CardLines(v);
    CardOnOneLine(v);
    forall i | 0 <= i < |lines| ensures '\n' !in lines[i] {
      assert NoLineTerminator(lines[i]);
    }
    SplitJoin(lines);
  }

  predicate AllOnOneLine(lines: seq<string>) {
    forall i :: 0 <= i < |lines| ==> NoLineTerminator(lines[i])
  }

  lemma OneLineConcat(a: string, b: string)
    requires NoLineTerminator(a) && NoLineTerminator(b)
    ensures NoLineTerminator(a + b)
  {
    forall k | 0 <= k < |a + b| ensures !IsLineTerminator((a + b)[k]) {
      if k < |a| { assert (a + b)[k] == a[k]; } else { assert (a + b)[k] == b[k - |a|]; }
    }
  }

  lemma OptionalOnOneLine(prefix: string, value: string)
    requires NoLineTerminator(prefix) && NoLineTerminator(value)
    ensures AllOnOneLine(Optional(prefix, value))
  {
    OneLineConcat(prefix, value);
  }

  lemma AllOnOneLineConcat(a: seq<string>, b: seq<string>)
    requires AllOnOneLine(a) && AllOnOneLine(b)
    ensures AllOnOneLine(a + b)
  {
    forall i | 0 <= i < |a + b| ensures NoLineTerminator((a + b)[i]) {
      if i < |a| { assert (a + b)[i] == a[i]; } else { assert (a + b)[i] == b[i - |a|]; }
    }
  }

  lemma CardOnOneLine(v: VCardFields)
    requires FieldsOnOneLine(v)
    ensures AllOnOneLine(CardLines(v))
  {
    OneLineConcat("FN:", v.name);
    OneLineConcat("N:;", v.name);
    OneLineConcat("N:;" + v.name, ";;;");
    var fixed := ["BEGIN:VCARD", "VERSION:3.0", "FN:" + v.name, "N:;" + v.name + ";;;"];
    assert AllOnOneLine(fixed);
    OptionalOnOneLine("ORG:", v.org);
    OptionalOnOneLine("TITLE:", v.title);
    OptionalOnOneLine("TEL;TYPE=CELL:", v.phone);
    OptionalOnOneLine("EMAIL;TYPE=INTERNET:", v.email);
    OptionalOnOneLine("URL:", v.url);
    assert AllOnOneLine(["END:VCARD"]);
    var e := ["END:VCARD"];
    var u := Optional("URL:", v.url) + e;
    AllOnOneLineConcat(Optional("URL:", v.url), e);
    var m := Optional("EMAIL;TYPE=INTERNET:", v.email) + u;
    AllOnOneLineConcat(Optional("EMAIL;TYPE=INTERNET:", v.email), u);
    var p := Optional("TEL;TYPE=CELL:", v.phone) + m;
    AllOnOneLineConcat(Optional("TEL;TYPE=CELL:", v.phone), m);
    var t := Optional("TITLE:", v.title) + p;
    AllOnOneLineConcat(Optional("TITLE:", v.title), p);
    var o := Optional("ORG:", v.org) + t;
    AllOnOneLineConcat(Optional("ORG:", v.org), t);
    AllOnOneLineConcat(fixed, o);
  }

  // ---------------------------------------------------------------------
  // Reading a card back: the multi-line, case-insensitive property lookup

  /** A property name as the lookup is called with: upper-case ASCII letters. */
  predicate IsKey(key: string) {
    |key| > 0 && forall i :: 0 <= i < |key| ==> 'A' <= key[i] <= 'Z'
  }

  /** Where the value starts when the property `key` begins the text at a
      line start: the name (ASCII letters in either case), then either ':'
      directly, or ';' and parameters up to the first ':' that follows -
      that search is not confined to the line. */
  function KeyMatch(t: string, key: string): (r: Option<nat>)
    ensures r.Some? ==> |key| < r.value <= |t| && t[r.value - 1] == ':'
    ensures r.Some? ==> ':' in t
    ensures r.Some? ==> StartsWithIgnoreCase(t, key)
    ensures r.Some? ==> t[|key|] == ':' || t[|key|] == ';'
  {
    if |t| > |key| && StartsWithIgnoreCase(t, key) then
      if t[|key|] == ':' then Some(|key| + 1)
      else if t[|key|] == ';' && ':' in t[|key|..] then Some(|key| + IndexOf(t[|key|..], ':') + 1)
      else None
    else None
  }

  /** The first line start, scanning from the start of `t`, where the
      property `key` matches; the value runs to the end of that line. */
  function ParseFrom(t: string, key: string): (r: Option<string>)
    ensures r.Some? ==> NoLineTerminator(r.value)
    decreases |t|
  {
    match KeyMatch(t, key)
    case Some(k) =>
      var e := LineEnd(t[k..]);
      Some(t[k..][..e])
    case None =>
      var e := LineEnd(t);
      if e == |t| then None else ParseFrom(t[e + 1..], key)
  }

  /** Position `i` of `t` begins a line: the start of the text, or just
      after a line terminator (where `^` matches under the `m` flag). */
  predicate LineStart(t: string, i: int) {
    0 <= i <= |t| && (i == 0 || IsLineTerminator(t[i - 1]))
  }

  /** No line starts strictly inside the first line. */
  lemma InsideFirstLine(t: string, i: int)
    requires 0 < i <= LineEnd(t)
    ensures !LineStart(t, i)
  {
  }

  /** Line starts of the text after the first line terminator are line
      starts of the whole text, shifted. */
  lemma ShiftLineStart(t: string, e: nat, j: int)
    requires e < |t| && IsLineTerminator(t[e]) && 0 <= j <= |t| - e - 1
    ensures LineStart(t[e + 1..], j) <==> LineStart(t, e + 1 + j)
    ensures t[e + 1..][j..] == t[e + 1 + j..]
  {
    if j > 0 { assert t[e + 1..][j - 1] == t[e + j]; }
  }

  /** With no match on the first line, a miss in the rest of the text is
      a miss at every line start of the whole text. */
  lemma NoMatchAfterFirstLine(t: string, key: string, e: nat, u: string)
    requires e == LineEnd(t) && e < |t| && u == t[e + 1..] && KeyMatch(t, key).None?
    requires forall j :: LineStart(u, j) ==> KeyMatch(u[j..], key).None?
    ensures forall i :: LineStart(t, i) ==> KeyMatch(t[i..], key).None?
  {
    EarlierMisses(t, key, e, u, |u| + 1);
  }

  /** A single-line text has one line start, its beginning. */
  lemma OnlyFirstLine(t: string, key: string)
    requires LineEnd(t) == |t| && KeyMatch(t, key).None?
    ensures forall i :: LineStart(t, i) ==> KeyMatch(t[i..], key).None?
  {
    assert t[0..] == t;
    forall i | LineStart(t, i) ensures KeyMatch(t[i..], key).None? {
      if i > 0 { InsideFirstLine(t, i); }
    }
  }

  /** `ParseFrom` misses exactly when the property matches at no line
      start of the text. */
  lemma ParseFromNone(t: string, key: string)
    ensures ParseFrom(t, key).None? <==> forall i :: LineStart(t, i) ==> KeyMatch(t[i..], key).None?
  {
    if ParseFrom(t, key).Some? {
      var i, k := ParseFromAt(t, key);
      assert LineStart(t, i) && KeyMatch(t[i..], key).Some?;
    } else {
      MissEverywhere(t, key);
    }
  }

  lemma {:induction false} MissEverywhere(t: string, key: string)
    requires ParseFrom(t, key).None?
    ensures forall i :: LineStart(t, i) ==> KeyMatch(t[i..], key).None?
    decreases |t|
  {
    assert KeyMatch(t, key).None?;
    var e := LineEnd(t);
    if e < |t| {
      var u := t[e + 1..];
      assert ParseFrom(u, key).None?;
      MissEverywhere(u, key);
      NoMatchAfterFirstLine(t, key, e, u);
    } else {
      OnlyFirstLine(t, key);
    }
  }

  /** Line start `i` of `t` is the first where the property `key`
      matches, with the value starting at offset `k` from it. */
  predicate FirstMatch(t: string, key: string, i: int, k: nat) {
    && LineStart(t, i) && KeyMatch(t[i..], key) == Some(k)
    && forall j :: 0 <= j < i && LineStart(t, j) ==> KeyMatch(t[j..], key).None?
  }

  /** `ParseFrom` returns the rest of the line after that first match. */
  predicate FoundFirst(t: string, key: string, i: nat, k: nat) {
    FirstMatch(t, key, i, k) && i + k <= |t| && ParseFrom(t, key) == Some(t[i + k..][..LineEnd(t[i + k..])])
  }

  /** `ParseFrom` finds the first line start where the property matches,
      and the value runs from the match to the end of that line. */
  lemma ParseFromFirst(t: string, key: string)
    requires ParseFrom(t, key).Some?
    ensures exists i: nat, k: nat :: FirstMatch(t, key, i, k) && i + k <= |t| && ParseFrom(t, key).value == t[i + k..][..LineEnd(t[i + k..])]
  {
    var i, k := ParseFromAt(t, key);
    assert FoundFirst(t, key, i, k);
  }

  lemma {:induction false} ParseFromAt(t: string, key: string) returns (i: nat, k: nat)
    requires ParseFrom(t, key).Some?
    ensures FoundFirst(t, key, i, k)
    decreases |t|, 1
  {
    if KeyMatch(t, key).Some? {
      i, k := 0, KeyMatch(t, key).value;
      ParseFromHere(t, key, k);
    } else {
      i, k := ParseFromLater(t, key);
    }
  }

  /** The first line matches: the value is the rest of that line. */
  lemma ParseFromHere(t: string, key: string, k: nat)
    requires KeyMatch(t, key) == Some(k)
    ensures FoundFirst(t, key, 0, k)
  {
    assert t[0..] == t;
  }

  /** The first line does not match: the match comes from the rest. */
  lemma {:induction false} ParseFromLater(t: string, key: string) returns (i: nat, k: nat)
    requires ParseFrom(t, key).Some? && KeyMatch(t, key).None?
    ensures FoundFirst(t, key, i, k)
    decreases |t|, 0
  {
    var e := LineEnd(t);
    var u := t[e + 1..];
    assert ParseFrom(t, key) == ParseFrom(u, key);
    var i', k' := ParseFromAt(u, key);
    i, k := ShiftFirstMatch(t, key, e, u, i', k');
  }

  /** The first match in the rest after a non-matching first line is the
      first match of the whole text, shifted past that line. */
  lemma ShiftFirstMatch(t: string, key: string, e: nat, u: string, i': nat, k': nat) returns (i: nat, k: nat)
    requires e == LineEnd(t) && e < |t| && u == t[e + 1..] && KeyMatch(t, key).None?
    requires FirstMatch(u, key, i', k') && i' + k' <= |u|
    ensures i == e + 1 + i' && k == k' && i + k <= |t|
    ensures FirstMatch(t, key, i, k) && t[i + k..] == u[i' + k'..]
  {
    ShiftLineStart(t, e, i');
    ShiftLineStart(t, e, i' + k');
    i, k := e + 1 + i', k';
    assert LineStart(t, i) && t[i..] == u[i'..];
    assert KeyMatch(t[i..], key) == Some(k);
    EarlierMisses(t, key, e, u, i');
  }

  lemma EarlierMisses(t: string, key: string, e: nat, u: string, n: nat)
    requires e == LineEnd(t) && e < |t| && u == t[e + 1..] && KeyMatch(t, key).None?
    requires forall j :: 0 <= j < n && LineStart(u, j) ==> KeyMatch(u[j..], key).None?
    ensures forall j :: 0 <= j < e + 1 + n && LineStart(t, j) ==> KeyMatch(t[j..], key).None?
  {
    forall j | 0 <= j < e + 1 + n && LineStart(t, j) ensures KeyMatch(t[j..], key).None? {
      EarlierMiss(t, key, e, u, n, j);
    }
  }

  /** A line start before the first match in the rest after the first line
      does not match either, when the first line does not. */
  lemma EarlierMiss(t: string, key: string, e: nat, u: string, n: nat, j: int)
    requires e == LineEnd(t) && e < |t| && u == t[e + 1..] && KeyMatch(t, key).None?
    requires LineStart(t, j) && j < e + 1 + n
    requires forall j :: 0 <= j < n && LineStart(u, j) ==> KeyMatch(u[j..], key).None?
    ensures KeyMatch(t[j..], key).None?
  {
    if j == 0 {
      assert t[0..] == t;
    } else if j <= e {
      InsideFirstLine(t, j);
    } else {
      EarlierMissLater(t, key, e, u, n, j);
    }
  }

  lemma EarlierMissLater(t: string, key: string, e: nat, u: string, n: nat, i: int)
    requires e == LineEnd(t) && e < i && LineStart(t, i) && u == t[e + 1..] && i < e + 1 + n
    requires forall j :: 0 <= j < n && LineStart(u, j) ==> KeyMatch(u[j..], key).None?
    ensures KeyMatch(t[i..], key).None?
  {
    var j := i - e - 1;
    ShiftLineStart(t, e, j);
    assert KeyMatch(u[j..], key).None?;
  }

  /** The value of property `key` in `text`, trimmed, or "" when no line
      holds the property. */
  function ParseV(text: string, key: string): (r: string)
    ensures IsTrimmed(r) && NoLineTerminator(r)
  {
    match ParseFrom(text, key)
    case Some(value) => TrimNoLineTerminator(value); Trim(value)
    case None => ""
  }

  lemma TrimNoLineTerminator(s: string)
    requires NoLineTerminator(s)
    ensures NoLineTerminator(Trim(s))
  {
    var r := Trim(s);
    var i, j :| 0 <= i <= j <= |s| && r == s[i..j];
    forall k | 0 <= k < |r| ensures !IsLineTerminator(r[k]) {
      assert r[k] == s[i + k];
    }
  }

  /** The AI-fill step on the vCard tab: every field is overwritten with the
      value read from the reply. */
  function Extract(reply: string): (r: VCardFields)
    ensures r.name == ParseV(reply, "FN") && r.org == ParseV(reply, "ORG")
    ensures r.title == ParseV(reply, "TITLE") && r.phone == ParseV(reply, "TEL")
    ensures r.email == ParseV(reply, "EMAIL") && r.url == ParseV(reply, "URL")
  {
    VCardFields(
      name := ParseV(reply, "FN"),
      phone := ParseV(reply, "TEL"),
      email := ParseV(reply, "EMAIL"),
      org := ParseV(reply, "ORG"),
      title := ParseV(reply, "TITLE"),
      url := ParseV(reply, "URL"))
  }

  /** A reply without any ':' fills no field. */
  lemma {:induction false} NoColonNoValue(t: string, key: string)
    requires ':' !in t
    ensures ParseFrom(t, key) == None
    decreases |t|
  {
    var e := LineEnd(t);
    if e < |t| {
      var u := t[e + 1..];
      assert ':' !in u by {
        forall k | 0 <= k < |u| ensures u[k] != ':' {
          assert u[k] == t[e + 1 + k];
        }
      }
      NoColonNoValue(u, key);
    }
  }

  lemma NoColonEmpty(reply: string)
    requires ':' !in reply
    ensures Extract(reply) == VCardFields("", "", "", "", "", "")
  {
    NoColonNoValue(reply, "FN");
    NoColonNoValue(reply, "ORG");
    NoColonNoValue(reply, "TITLE");
    NoColonNoValue(reply, "TEL");
    NoColonNoValue(reply, "EMAIL");
    NoColonNoValue(reply, "URL");
  }

  /** A line the lookup for `key` passes over whatever follows it: it does
      not begin with the name followed by ':' or ';'. */
  predicate LineSkips(line: string, key: string) {
    !(|line| > |key| && StartsWithIgnoreCase(line, key) && (line[|key|] == ':' || line[|key|] == ';'))
  }

  predicate AllSkip(lines: seq<string>, key: string) {
    forall i :: 0 <= i < |lines| ==> LineSkips(lines[i], key)
  }

  /** Position `i` of the line's prefix already tells it apart from `key`. */
  predicate DiffersAt(prefix: string, key: string, i: nat) {
    i < |prefix| && i < |key| && UpperAscii(prefix[i]) != UpperAscii(key[i])
  }

  lemma SkipByPrefix(prefix: string, rest: string, key: string, i: nat)
    requires DiffersAt(prefix, key, i)
    ensures LineSkips(prefix + rest, key)
  {
    assert (prefix + rest)[i] == prefix[i];
  }

  lemma OptionalSkips(prefix: string, value: string, key: string, i: nat)
    requires DiffersAt(prefix, key, i)
    ensures AllSkip(Optional(prefix, value), key)
  {
    SkipByPrefix(prefix, value, key, i);
  }

  /** The lookup steps over a line it skips to the next line start. */
  lemma ParseSkipLine(line: string, rest: string, key: string)
    requires IsKey(key) && NoLineTerminator(line) && LineSkips(line, key)
    ensures ParseFrom(line + ("\n" + rest), key) == ParseFrom(rest, key)
  {
    var t := line + ("\n" + rest);
    assert t[|line|] == '\n';
    if |line| > |key| {
      assert t[|key|] == line[|key|];
      if StartsWithIgnoreCase(t, key) {
        forall i | 0 <= i < |key| ensures UpperAscii(line[i]) == UpperAscii(key[i]) {
          assert t[i] == line[i];
        }
      }
    } else if |line| < |key| {
      assert UpperAscii(t[|line|]) != UpperAscii(key[|line|]);
    }
    assert KeyMatch(t, key) == None;
    LineEndAt(line, "\n" + rest);
    assert t[|line| + 1..] == rest;
  }

  /** Joining skipped lines in front of others does not change the value. */
  lemma {:induction false} ParseSkipLines(before: seq<string>, rest: seq<string>, key: string)
    requires IsKey(key) && AllOnOneLine(before) && AllSkip(before, key) && rest != []
    ensures ParseFrom(Join(before + rest), key) == ParseFrom(Join(rest), key)
    decreases |before|
  {
    if before != [] {
      var tail := before[1..] + rest;
      assert (before + rest)[1..] == tail;
      assert Join(before + rest) == before[0] + ("\n" + Join(tail));
      ParseSkipLine(before[0], Join(tail), key);
      ParseSkipLines(before[1..], rest, key);
    } else {
      assert before + rest == rest;
    }
  }

  /** Text made only of skipped lines holds no value. */
  lemma {:induction false} ParseAllSkip(lines: seq<string>, key: string)
    requires IsKey(key) && AllOnOneLine(lines) && AllSkip(lines, key)
    ensures ParseFrom(Join(lines), key) == None
    decreases |lines|
  {
    if |lines| == 1 {
      var t := lines[0];
      ParseSkipLine(t, "", key);
      assert t == t + [];
      LineEndAt(t, "");
    } else if |lines| > 1 {
      ParseSkipLines([lines[0]], lines[1..], key);
      assert [lines[0]] + lines[1..] == lines;
      ParseAllSkip(lines[1..], key);
    }
  }

  /** Text after a line that holds the property does not change where
      the value starts. */
  lemma KeyMatchExtend(line: string, y: string, key: string, k: nat)
    requires KeyMatch(line, key) == Some(k)
    ensures KeyMatch(line + y, key) == Some(k)
  {
    var t := line + y;
    assert t[..|line|] == line;
    assert t[|key|] == line[|key|];
    assert StartsWithIgnoreCase(t, key) by {
      forall i | 0 <= i < |key| ensures UpperAscii(t[i]) == UpperAscii(key[i]) {
        assert t[i] == line[i];
      }
    }
    if line[|key|] == ';' {
      IndexOfPrefix(line[|key|..], y, ':');
      assert t[|key|..] == line[|key|..] + y;
    }
  }

  lemma ValueToLineEnd(line: string, y: string, key: string, k: nat)
    requires NoLineTerminator(line) && KeyMatch(line, key) == Some(k)
    requires y == [] || y[0] == '\n'
    ensures ParseFrom(line + y, key) == Some(line[k..])
  {
    KeyMatchExtend(line, y, key, k);
    var t := line + y;
    assert t[k..] == line[k..] + y;
    LineEndAt(line[k..], y);
  }

  /** The first line that holds the property gives the value: the rest of
      that line. */
  lemma ParseFirstLine(line: string, after: seq<string>, key: string, k: nat)
    requires NoLineTerminator(line) && KeyMatch(line, key) == Some(k)
    ensures ParseFrom(Join([line] + after), key) == Some(line[k..])
  {
    assert ([line] + after)[1..] == after;
    if after == [] {
      assert Join([line] + after) == line + [];
      ValueToLineEnd(line, [], key, k);
    } else {
      assert Join([line] + after) == line + ("\n" + Join(after));
      ValueToLineEnd(line, "\n" + Join(after), key, k);
    }
  }

  /** `KEY:value` holds `value`. */
  lemma MatchColon(prefix: string, key: string, value: string)
    requires prefix == key + ":"
    ensures KeyMatch(prefix + value, key) == Some(|prefix|)
  {
    var t := prefix + value;
    assert t[..|key|] == key;
  }

  /** `KEY;params:value` with no ':' in the parameters holds `value`. */
  lemma MatchParams(line: string, key: string, params: string, value: string)
    requires line == key + (([';'] + params) + ([':'] + value)) && ':' !in params
    ensures KeyMatch(line, key) == Some(|key| + |params| + 2)
  {
    var x := [';'] + params;
    var u := x + ([':'] + value);
    assert ':' !in x;
    IndexOfAfter(x, ':', value);
    assert u[0] == ';';
    MatchAtParams(key, u, |x|);
    assert line == key + u && |x| == |params| + 1;
  }

  /** The parameter branch of the match: the value starts after the first
      ':' past the key. */
  lemma MatchAtParams(key: string, u: string, j: nat)
    requires |u| > 0 && u[0] == ';'
    requires j == IndexOf(u, ':') && j < |u|
    ensures KeyMatch(key + u, key) == Some(|key| + j + 1)
  {
    ParamsLayout(key, u);
    assert (key + u)[|key|] == ';';
  }

  /** The key at the start of a line is matched whatever follows it. */
  lemma ParamsLayout(key: string, u: string)
    ensures StartsWithIgnoreCase(key + u, key)
    ensures (key + u)[|key|..] == u
  {
    assert forall i :: 0 <= i < |key| ==> (key + u)[i] == key[i];
  }

  // ---------------------------------------------------------------------
  // Round trip: the card read back field by field

  lemma AllSkipConcat(a: seq<string>, b: seq<string>, key: string)
    requires AllSkip(a, key) && AllSkip(b, key)
    ensures AllSkip(a + b, key)
  {
    forall i | 0 <= i < |a + b| ensures LineSkips((a + b)[i], key) {
      if i < |a| { assert (a + b)[i] == a[i]; } else { assert (a + b)[i] == b[i - |a|]; }
    }
  }

  lemma AllOnOneLineParts(a: seq<string>, b: seq<string>)
    requires AllOnOneLine(a + b)
    ensures AllOnOneLine(a) && AllOnOneLine(b)
  {
    forall i | 0 <= i < |a| ensures NoLineTerminator(a[i]) {
      assert (a + b)[i] == a[i];
    }
    forall i | 0 <= i < |b| ensures NoLineTerminator(b[i]) {
      assert (a + b)[|a| + i] == b[i];
    }
  }

  /** Lines the lookup skips, then the optional line of the property, then
      more skipped lines: the value read back is the field, trimmed, and ""
      when the field is empty and its line is absent. */
  lemma {:induction false} OptionalValue(before: seq<string>, prefix: string, value: string,
                                         after: seq<string>, key: string)
    requires IsKey(key) && after != []
    requires AllOnOneLine(before + (Optional(prefix, value) + after))
    requires AllSkip(before, key) && AllSkip(after, key)
    requires KeyMatch(prefix + value, key) == Some(|prefix|)
    ensures ParseV(Join(before + (Optional(prefix, value) + after)), key) == Trim(value)
  {
    var rest := Optional(prefix, value) + after;
    AllOnOneLineParts(before, rest);
    AllOnOneLineParts(Optional(prefix, value), after);
    ParseSkipLines(before, rest, key);
    if value == "" {
      assert rest == after;
      ParseAllSkip(after, key);
    } else {
      assert rest == [prefix + value] + after;
      ParseFirstLine(prefix + value, after, key, |prefix|);
      assert (prefix + value)[|prefix|..] == value;
    }
  }

  /** None of the four fixed lines holds a property whose name starts with
      a letter other than B, V, F or N. */
  lemma FixedSkip(v: VCardFields, key: string)
    requires IsKey(key) && key[0] != 'B' && key[0] != 'V' && key[0] != 'F' && key[0] != 'N'
    ensures AllSkip(["BEGIN:VCARD", "VERSION:3.0", "FN:" + v.name, "N:;" + v.name + ";;;"], key)
  {
    assert UpperAscii(key[0]) == key[0];
    SkipByPrefix("BEGIN:VCARD", "", key, 0);
    assert "BEGIN:VCARD" + "" == "BEGIN:VCARD";
    SkipByPrefix("VERSION:3.0", "", key, 0);
    assert "VERSION:3.0" + "" == "VERSION:3.0";
    SkipByPrefix("FN:", v.name, key, 0);
    SkipByPrefix("N:;", v.name + ";;;", key, 0);
    assert "N:;" + (v.name + ";;;") == "N:;" + v.name + ";;;";
  }
  lemma OrgReadBack(v: VCardFields)
    requires FieldsOnOneLine(v)
    ensures ParseV(Encode(v), "ORG") == Trim(v.org)
  {
    LinesOfCard(v);
    CardOnOneLine(v);
    var fixed := ["BEGIN:VCARD", "VERSION:3.0", "FN:" + v.name, "N:;" + v.name + ";;;"];
    var O := Optional("ORG:", v.org);
    var Ti := Optional("TITLE:", v.title);
    var Te := Optional("TEL;TYPE=CELL:", v.phone);
    var Em := Optional("EMAIL;TYPE=INTERNET:", v.email);
    var U := Optional("URL:", v.url);
    var E := ["END:VCARD"];
    var after := Ti + (Te + (Em + (U + E)));
    var before := fixed;
    assert CardLines(v) == before + (O + after);
    FixedSkip(v, "ORG");
    SkipByPrefix("END:VCARD", "", "ORG", 0);
    assert "END:VCARD" + "" == "END:VCARD";
    OptionalSkips("URL:", v.url, "ORG", 0);
    AllSkipConcat(U, E, "ORG");
    OptionalSkips("EMAIL;TYPE=INTERNET:", v.email, "ORG", 0);
    AllSkipConcat(Em, U + E, "ORG");
    OptionalSkips("TEL;TYPE=CELL:", v.phone, "ORG", 0);
    AllSkipConcat(Te, Em + (U + E), "ORG");
    OptionalSkips("TITLE:", v.title, "ORG", 0);
    AllSkipConcat(Ti, Te + (Em + (U + E)), "ORG");
    MatchColon("ORG:", "ORG", v.org);
    OptionalValue(before, "ORG:", v.org, after, "ORG");
  }

  lemma TitleReadBack(v: VCardFields)
    requires FieldsOnOneLine(v)
    ensures ParseV(Encode(v), "TITLE") == Trim(v.title)
  {
    LinesOfCard(v);
    CardOnOneLine(v);
    var fixed := ["BEGIN:VCARD", "VERSION:3.0", "FN:" + v.name, "N:;" + v.name + ";;;"];
    var O := Optional("ORG:", v.org);
    var Ti := Optional("TITLE:", v.title);
    var Te := Optional("TEL;TYPE=CELL:", v.phone);
    var Em := Optional("EMAIL;TYPE=INTERNET:", v.email);
    var U := Optional("URL:", v.url);
    var E := ["END:VCARD"];
    var after := Te + (Em + (U + E));
    var before := fixed + O;
    assert CardLines(v) == before + (Ti + after);
    FixedSkip(v, "TITLE");
    OptionalSkips("ORG:", v.org, "TITLE", 0);
    AllSkipConcat(fixed, O, "TITLE");
    SkipByPrefix("END:VCARD", "", "TITLE", 0);
    assert "END:VCARD" + "" == "END:VCARD";
    OptionalSkips("URL:", v.url, "TITLE", 0);
    AllSkipConcat(U, E, "TITLE");
    OptionalSkips("EMAIL;TYPE=INTERNET:", v.email, "TITLE", 0);
    AllSkipConcat(Em, U + E, "TITLE");
    OptionalSkips("TEL;TYPE=CELL:", v.phone, "TITLE", 1);
    AllSkipConcat(Te, Em + (U + E), "TITLE");
    MatchColon("TITLE:", "TITLE", v.title);
    OptionalValue(before, "TITLE:", v.title, after, "TITLE");
  }

  lemma PhoneReadBack(v: VCardFields)
    requires FieldsOnOneLine(v)
    ensures ParseV(Encode(v), "TEL") == Trim(v.phone)
  {
    LinesOfCard(v);
    CardOnOneLine(v);
    var fixed := ["BEGIN:VCARD", "VERSION:3.0", "FN:" + v.name, "N:;" + v.name + ";;;"];
    var O := Optional("ORG:", v.org);
    var Ti := Optional("TITLE:", v.title);
    var Te := Optional("TEL;TYPE=CELL:", v.phone);
    var Em := Optional("EMAIL;TYPE=INTERNET:", v.email);
    var U := Optional("URL:", v.url);
    var E := ["END:VCARD"];
    var after := Em + (U + E);
    var before := (fixed + O) + Ti;
    assert CardLines(v) == before + (Te + after);
    FixedSkip(v, "TEL");
    OptionalSkips("ORG:", v.org, "TEL", 0);
    AllSkipConcat(fixed, O, "TEL");
    OptionalSkips("TITLE:", v.title, "TEL", 1);
    AllSkipConcat(fixed + O, Ti, "TEL");
    SkipByPrefix("END:VCARD", "", "TEL", 0);
    assert "END:VCARD" + "" == "END:VCARD";
    OptionalSkips("URL:", v.url, "TEL", 0);
    AllSkipConcat(U, E, "TEL");
    OptionalSkips("EMAIL;TYPE=INTERNET:", v.email, "TEL", 0);
    AllSkipConcat(Em, U + E, "TEL");
    PhoneLineMatches(v.phone);
    OptionalValue(before, "TEL;TYPE=CELL:", v.phone, after, "TEL");
  }

  lemma EmailReadBack(v: VCardFields)
    requires FieldsOnOneLine(v)
    ensures ParseV(Encode(v), "EMAIL") == Trim(v.email)
  {
    LinesOfCard(v);
    CardOnOneLine(v);
    var fixed := ["BEGIN:VCARD", "VERSION:3.0", "FN:" + v.name, "N:;" + v.name + ";;;"];
    var O := Optional("ORG:", v.org);
    var Ti := Optional("TITLE:", v.title);
    var Te := Optional("TEL;TYPE=CELL:", v.phone);
    var Em := Optional("EMAIL;TYPE=INTERNET:", v.email);
    var U := Optional("URL:", v.url);
    var E := ["END:VCARD"];
    var after := U + E;
    var before := ((fixed + O) + Ti) + Te;
    assert CardLines(v) == before + (Em + after);
    FixedSkip(v, "EMAIL");
    OptionalSkips("ORG:", v.org, "EMAIL", 0);
    AllSkipConcat(fixed, O, "EMAIL");
    OptionalSkips("TITLE:", v.title, "EMAIL", 0);
    AllSkipConcat(fixed + O, Ti, "EMAIL");
    OptionalSkips("TEL;TYPE=CELL:", v.phone, "EMAIL", 0);
    AllSkipConcat((fixed + O) + Ti, Te, "EMAIL");
    SkipByPrefix("END:VCARD", "", "EMAIL", 1);
    assert "END:VCARD" + "" == "END:VCARD";
    OptionalSkips("URL:", v.url, "EMAIL", 0);
    AllSkipConcat(U, E, "EMAIL");
    EmailLineMatches(v.email);
    OptionalValue(before, "EMAIL;TYPE=INTERNET:", v.email, after, "EMAIL");
  }

  lemma UrlReadBack(v: VCardFields)
    requires FieldsOnOneLine(v)
    ensures ParseV(Encode(v), "URL") == Trim(v.url)
  {
    LinesOfCard(v);
    CardOnOneLine(v);
    var fixed := ["BEGIN:VCARD", "VERSION:3.0", "FN:" + v.name, "N:;" + v.name + ";;;"];
    var O := Optional("ORG:", v.org);
    var Ti := Optional("TITLE:", v.title);
    var Te := Optional("TEL;TYPE=CELL:", v.phone);
    var Em := Optional("EMAIL;TYPE=INTERNET:", v.email);
    var U := Optional("URL:", v.url);
    var E := ["END:VCARD"];
    var after := E;
    var before := (((fixed + O) + Ti) + Te) + Em;
    assert CardLines(v) == before + (U + after);
    FixedSkip(v, "URL");
    OptionalSkips("ORG:", v.org, "URL", 0);
    AllSkipConcat(fixed, O, "URL");
    OptionalSkips("TITLE:", v.title, "URL", 0);
    AllSkipConcat(fixed + O, Ti, "URL");
    OptionalSkips("TEL;TYPE=CELL:", v.phone, "URL", 0);
    AllSkipConcat((fixed + O) + Ti, Te, "URL");
    OptionalSkips("EMAIL;TYPE=INTERNET:", v.email, "URL", 0);
    AllSkipConcat(((fixed + O) + Ti) + Te, Em, "URL");
    SkipByPrefix("END:VCARD", "", "URL", 0);
    assert "END:VCARD" + "" == "END:VCARD";
    MatchColon("URL:", "URL", v.url);
    OptionalValue(before, "URL:", v.url, after, "URL");
  }

  lemma PhoneLineMatches(phone: string)
    ensures KeyMatch("TEL;TYPE=CELL:" + phone, "TEL") == Some(|"TEL;TYPE=CELL:"|)
  {
    MatchParams("TEL;TYPE=CELL:" + phone, "TEL", "TYPE=CELL", phone);
  }

  lemma EmailLineMatches(email: string)
    ensures KeyMatch("EMAIL;TYPE=INTERNET:" + email, "EMAIL") == Some(|"EMAIL;TYPE=INTERNET:"|)
  {
    MatchParams("EMAIL;TYPE=INTERNET:" + email, "EMAIL", "TYPE=INTERNET", email);
  }

  lemma NameReadBack(v: VCardFields)
    requires FieldsOnOneLine(v)
    ensures ParseV(Encode(v), "FN") == Trim(v.name)
  {
    LinesOfCard(v);
    CardOnOneLine(v);
    var line := "FN:" + v.name;
    var c := CardLines(v);
    var before := ["BEGIN:VCARD", "VERSION:3.0"];
    var after := c[3..];
    assert c[0] == "BEGIN:VCARD" && c[1] == "VERSION:3.0" && c[2] == line;
    assert c == before + ([line] + after);
    AllOnOneLineParts(before, [line] + after);
    assert NoLineTerminator(c[2]);
    ParseSkipLines(before, [line] + after, "FN");
    MatchColon("FN:", "FN", v.name);
    ParseFirstLine(line, after, "FN", 3);
    assert line[3..] == v.name;
  }

  /** The fields with the surrounding whitespace the lookup trims away. */
  function Trimmed(v: VCardFields): (r: VCardFields)
    ensures IsTrimmed(r.name) && IsTrimmed(r.phone) && IsTrimmed(r.email)
    ensures IsTrimmed(r.org) && IsTrimmed(r.title) && IsTrimmed(r.url)
  {
    VCardFields(Trim(v.name), Trim(v.phone), Trim(v.email), Trim(v.org), Trim(v.title), Trim(v.url))
  }

  predicate AllTrimmed(v: VCardFields) {
    && IsTrimmed(v.name) && IsTrimmed(v.phone) && IsTrimmed(v.email)
    && IsTrimmed(v.org) && IsTrimmed(v.title) && IsTrimmed(v.url)
  }

  /** Reading the rendered card back recovers every field up to the
      whitespace `trim` removes, provided no field spans lines. */
  lemma ExtractAfterEncode(v: VCardFields)
    requires FieldsOnOneLine(v)
    ensures Extract(Encode(v)) == Trimmed(v)
  {
    NameReadBack(v);
    OrgReadBack(v);
    TitleReadBack(v);
    PhoneReadBack(v);
    EmailReadBack(v);
    UrlReadBack(v);
  }

  /** The card survives the round trip exactly when no field has leading
      or trailing whitespace. */
  lemma RoundTripExact(v: VCardFields)
    requires FieldsOnOneLine(v)
    ensures Extract(Encode(v)) == v <==> AllTrimmed(v)
  {
    ExtractAfterEncode(v);
    TrimmedFixes(v);
  }

  lemma TrimmedFixes(v: VCardFields)
    ensures Trimmed(v) == v <==> AllTrimmed(v)
  {
    if AllTrimmed(v) {
      TrimTrimmed(v.name);
      TrimTrimmed(v.phone);
      TrimTrimmed(v.email);
      TrimTrimmed(v.org);
      TrimTrimmed(v.title);
      TrimTrimmed(v.url);
    }
  }

  /** The property name matches in either case: a line whose name equals
      the key up to ASCII case holds the value after its ':'. */
  lemma AnyCaseMatches(name: string, value: string, key: string)
    requires |name| == |key|
    requires forall i :: 0 <= i < |key| ==> UpperAscii(name[i]) == UpperAscii(key[i])
    ensures KeyMatch(name + ":" + value, key) == Some(|key| + 1)
  {
    var t := name + ":" + value;
    forall i | 0 <= i < |key| ensures UpperAscii(t[i]) == UpperAscii(key[i]) {
      assert t[i] == name[i];
    }
  }

  /** The parameter list after ';' is searched for ':' past the end of its
      line: the parameters may hold line breaks, so a line with parameters
      but no ':' takes its value from a later line. */
  lemma ParamsCrossLines(line: string, key: string, params: string, value: string)
    requires line == key + (([';'] + params) + ([':'] + value))
    requires ':' !in params && NoLineTerminator(value)
    ensures ParseV(line, key) == Trim(value)
  {
    ParamsFrom(line, key, params, value);
  }

  /** The value found after `KEY;params:` is the rest of the text. */
  lemma ParamsFrom(line: string, key: string, params: string, value: string)
    requires line == key + (([';'] + params) + ([':'] + value))
    requires ':' !in params && NoLineTerminator(value)
    ensures ParseFrom(line, key) == Some(value)
  {
    var k := ParamsSplit(line, key, params, value);
    MatchToEnd(line, key, k, value);
  }

  /** Where the value of a `KEY;params:value` line starts. */
  lemma ParamsSplit(line: string, key: string, params: string, value: string) returns (k: nat)
    requires line == key + (([';'] + params) + ([':'] + value)) && ':' !in params
    ensures KeyMatch(line, key) == Some(k) && line[k..] == value
  {
    k := |key| + |params| + 2;
    ParamsValue(line, key, params, value);
    MatchParams(line, key, params, value);
  }

  lemma ParamsValue(line: string, key: string, params: string, value: string)
    requires line == key + (([';'] + params) + ([':'] + value))
    ensures line[|key| + |params| + 2..] == value
  {
  }

  /** A match whose value runs to the end of the text gives that value. */
  lemma MatchToEnd(t: string, key: string, k: nat, value: string)
    requires KeyMatch(t, key) == Some(k) && t[k..] == value && NoLineTerminator(value)
    ensures ParseFrom(t, key) == Some(value)
  {
    LineEndAt(value, []);
    assert value + [] == value;
  }
}
