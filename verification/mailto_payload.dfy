/** The `mailto:` URI (section 2 of RFC 6068) the e-mail tab renders, and
    the case-insensitive split that fills the e-mail fields from an AI
    reply. */
module MailtoPayload {
  import opened Wrappers
  import opened JsString
  import opened QrTypes
  import Uri = UriComponent

  /** The payload: the recipient as typed, then the percent-encoded
      subject and body as query parameters. */
  function Encode(e: EmailFields): (r: string)
    ensures StartsWith(r, "mailto:")
  {
    "mailto:" + (e.to + ("?subject=" + (Uri.Encode(e.subject) + ("&body=" + Uri.Encode(e.body)))))
  }

  /** The three groups of a match: the recipient, and the still encoded
      subject and body. */
  datatype MailMatch = MailMatch(to: string, subject: string, body: string)

  /** A match starting at the beginning of `t`: "mailto:" in any case,
      then the rest of the pattern. */
  function MatchAt(t: string): (r: Option<MailMatch>)
    ensures r.Some? ==> '?' !in r.value.to && '&' !in r.value.subject && NoLineTerminator(r.value.body)
    ensures r.Some? ==> StartsWithIgnoreCase(t, "mailto:")
  {
    if StartsWithIgnoreCase(t, "mailto:") then MatchRecipient(t[7..]) else None
  }

  /** The recipient up to the first '?' (across lines), then "subject=" in
      any case, then the parameters. */
  function MatchRecipient(u: string): (r: Option<MailMatch>)
    ensures r.Some? ==> '?' !in r.value.to && '&' !in r.value.subject && NoLineTerminator(r.value.body)
  {
    var q := IndexOf(u, '?');
    if q < |u| && StartsWithIgnoreCase(u[q + 1..], "subject=") then
      match MatchParameters(u[q + 9..])
      case Some((subject, body)) => Some(MailMatch(u[..q], subject, body))
      case None => None
    else None
  }

  /** The subject up to the first '&' (across lines), "body=" in any case,
      and the body up to the end of its line. */
  function MatchParameters(w: string): (r: Option<(string, string)>)
    ensures r.Some? ==> '&' !in r.value.0 && NoLineTerminator(r.value.1)
  {
    var a := IndexOf(w, '&');
    if a < |w| && StartsWithIgnoreCase(w[a + 1..], "body=") then
      var b := w[a + 6..];
      Some((w[..a], b[..LineEnd(b)]))
    else None
  }

  /** The leftmost match in `t`: the pattern is not anchored. */
  function Find(t: string): (r: Option<MailMatch>)
    ensures r.Some? ==> '?' !in r.value.to && '&' !in r.value.subject && NoLineTerminator(r.value.body)
    ensures MatchAt(t).Some? ==> r == MatchAt(t)
    decreases |t|
  {
    if MatchAt(t).Some? then MatchAt(t)
    else if t == [] then None
    else Find(t[1..])
  }

  /** `Find` is the leftmost match: it matches at some position, no earlier
      position matches, and it finds nothing only when no position does. */
  lemma {:induction false} FindLeftmost(t: string)
    ensures Find(t).Some? ==>
      exists i :: 0 <= i <= |t| && MatchAt(t[i..]) == Find(t)
        && forall j :: 0 <= j < i ==> MatchAt(t[j..]).None?
    ensures Find(t).None? ==> forall j :: 0 <= j <= |t| ==> MatchAt(t[j..]).None?
    decreases |t|
  {
    assert t[0..] == t;
    if MatchAt(t).None? && t != [] {
      FindLeftmost(t[1..]);
      if Find(t).Some? {
        var i :| 0 <= i <= |t[1..]| && MatchAt(t[1..][i..]) == Find(t[1..])
          && forall j :: 0 <= j < i ==> MatchAt(t[1..][j..]).None?;
        assert t[1..][i..] == t[i + 1..];
        forall j | 0 <= j < i + 1 ensures MatchAt(t[j..]).None? {
          if j > 0 { assert t[1..][j - 1..] == t[j..]; }
        }
      } else {
        forall j | 0 <= j <= |t| ensures MatchAt(t[j..]).None? {
          if j > 0 { assert t[1..][j - 1..] == t[j..]; }
        }
      }
    }
  }

  /** What the AI-fill step on the e-mail tab does with a reply. */
  datatype MailReply =
    | Filled(fields: EmailFields)
      // the reply matched and both parameters decoded
    | Failed(fields: EmailFields)
      // the reply matched but a parameter failed to decode: the fields
      // already written stay written and the failure propagates
    | NoMatch
      // the reply did not match; it becomes the QR content

  /** The recipient is written first, then the decoded subject, then the
      decoded body; a decoding failure stops the sequence where it is. */
  function Extract(e: EmailFields, reply: string): (r: MailReply)
    ensures r.NoMatch? <==> Find(reply).None?
    ensures r.Filled? || r.Failed? ==> r.fields.to == Find(reply).value.to
    ensures r.Filled? <==> (Find(reply).Some?
                            && Uri.Decode(Find(reply).value.subject).Ok?
                            && Uri.Decode(Find(reply).value.body).Ok?)
    ensures r.Filled? ==> r.fields == e.(to := Find(reply).value.to,
                                         subject := Uri.Decode(Find(reply).value.subject).value,
                                         body := Uri.Decode(Find(reply).value.body).value)
    ensures r.Failed? && Uri.Decode(Find(reply).value.subject).Err? ==> r.fields == e.(to := r.fields.to)
    ensures r.Failed? && Uri.Decode(Find(reply).value.subject).Ok? ==>
      && Uri.Decode(Find(reply).value.body).Err?
      && r.fields == e.(to := Find(reply).value.to, subject := Uri.Decode(Find(reply).value.subject).value)
  {
    match Find(reply)
    case None => NoMatch
    case Some(m) =>
      var e1 := e.(to := m.to);
      match Uri.Decode(m.subject)
      case Err(_) => Failed(e1)
      case Ok(subject) =>
        var e2 := e1.(subject := subject);
        match Uri.Decode(m.body)
        case Err(_) => Failed(e2)
        case Ok(body) => Filled(e2.(body := body))
  }

  // ---------------------------------------------------------------------
  // Round trip

  /** A text laid out as the encoder lays it out, with a recipient free of
      '?', a subject free of '&' and a body on one line, matches at its
      start with exactly those three groups. */
  lemma MatchAtLayout(to: string, subject: string, body: string)
    requires '?' !in to && '&' !in subject && NoLineTerminator(body)
    ensures MatchAt("mailto:" + (to + ("?subject=" + (subject + ("&body=" + body)))))
         == Some(MailMatch(to, subject, body))
  {
    EqualIgnoreCaseSame("mailto:");
    EqualIgnoreCaseSame("subject=");
    EqualIgnoreCaseSame("body=");
    MatchAtAnyCase("mailto:", to, "subject=", subject, "body=", body, []);
    assert body + [] == body;
    SubjectRegroup(subject + ("&body=" + body));
    BodyRegroup(body);
  }

  lemma SubjectRegroup(x: string)
    ensures "?subject=" + x == ['?'] + ("subject=" + x)
  {
  }

  lemma BodyRegroup(x: string)
    ensures "&body=" + x == ['&'] + ("body=" + x)
  {
  }

  /** The parameters in any letter case: the subject runs to the first '&',
      and the body stops at the end of its line, whatever follows. */
  lemma ParametersAnyCase(subject: string, b: string, body: string, rest: string)
    requires '&' !in subject && EqualIgnoreCase(b, "body=")
    requires NoLineTerminator(body) && (rest == [] || IsLineTerminator(rest[0]))
    ensures MatchParameters(subject + (['&'] + (b + (body + rest)))) == Some((subject, body))
  {
    var w := subject + (['&'] + (b + (body + rest)));
    IndexOfAfter(subject, '&', b + (body + rest));
    assert w[|subject| + 1..] == b + (body + rest);
    PrefixIgnoringCase(b, "body=", body + rest);
    assert w[|subject| + 6..] == body + rest;
    assert w[..|subject|] == subject;
    LineEndAt(body, rest);
    assert (body + rest)[..|body|] == body;
  }

  /** The recipient runs to the first '?', which "subject=" in any case
      follows. */
  lemma RecipientAnyCase(to: string, s: string, tail: string)
    requires '?' !in to && EqualIgnoreCase(s, "subject=")
    ensures MatchRecipient(to + (['?'] + (s + tail)))
         == match MatchParameters(tail)
            case Some((subject, body)) => Some(MailMatch(to, subject, body))
            case None => None
  {
    var u := to + (['?'] + (s + tail));
    IndexOfAfter(to, '?', s + tail);
    assert u[|to| + 1..] == s + tail;
    PrefixIgnoringCase(s, "subject=", tail);
    assert u[|to| + 9..] == tail;
    assert u[..|to|] == to;
  }

  /** The `i` flag and `(.*)`: "mailto:", "subject=" and "body=" match in
      any letter case, and the body group ends at the first line
      terminator, whatever text follows it. */
  lemma MatchAtAnyCase(m: string, to: string, s: string, subject: string, b: string, body: string, rest: string)
    requires EqualIgnoreCase(m, "mailto:") && EqualIgnoreCase(s, "subject=") && EqualIgnoreCase(b, "body=")
    requires '?' !in to && '&' !in subject && NoLineTerminator(body)
    requires rest == [] || IsLineTerminator(rest[0])
    ensures MatchAt(m + (to + (['?'] + (s + (subject + (['&'] + (b + (body + rest))))))))
         == Some(MailMatch(to, subject, body))
  {
    var tail := subject + (['&'] + (b + (body + rest)));
    var u := to + (['?'] + (s + tail));
    PrefixIgnoringCase(m, "mailto:", u);
    assert (m + u)[7..] == u;
    ParametersAnyCase(subject, b, body, rest);
    RecipientAnyCase(to, s, tail);
  }

  lemma EncodedOneLine(s: string)
    ensures NoLineTerminator(Uri.Encode(s)) && '&' !in Uri.Encode(s)
  {
    Uri.EncodedHasNoDelimiter(s);
    var r := Uri.Encode(s);
    forall k | 0 <= k < |r| ensures !IsLineTerminator(r[k]) {
      assert r[k] in r;
    }
  }

  /** Reading the payload back recovers the recipient, subject and body
      exactly when the recipient holds no '?'; otherwise the recipient
      group stops at its first '?'. */
  lemma ExtractAfterEncode(prior: EmailFields, e: EmailFields)
    ensures Extract(prior, Encode(e)) == Filled(e) <==> '?' !in e.to
  {
    if '?' !in e.to {
      EncodedOneLine(e.subject);
      EncodedOneLine(e.body);
      MatchAtLayout(e.to, Uri.Encode(e.subject), Uri.Encode(e.body));
      Uri.DecodeEncode(e.subject);
      Uri.DecodeEncode(e.body);
    }
  }

  /** The recipient is already written when a malformed escape in the
      subject makes decoding fail; subject and body keep their values. */
  lemma MalformedSubjectKeepsRecipient(prior: EmailFields, to: string, subject: string, body: string)
    requires '?' !in to && '&' !in subject && NoLineTerminator(body)
    requires Uri.Decode(subject).Err?
    ensures Extract(prior, "mailto:" + (to + ("?subject=" + (subject + ("&body=" + body)))))
         == Failed(prior.(to := to))
  {
    MatchAtLayout(to, subject, body);
  }

  /** For instance a subject escaped as Latin-1 rather than UTF-8. */
  lemma LatinOneSubject(prior: EmailFields, to: string, body: string)
    requires '?' !in to && NoLineTerminator(body)
    ensures Extract(prior, "mailto:" + (to + ("?subject=" + ("caf%E9" + ("&body=" + body)))))
         == Failed(prior.(to := to))
  {
    Uri.LatinOneEscapeFails();
    MalformedSubjectKeepsRecipient(prior, to, "caf%E9", body);
  }
}
