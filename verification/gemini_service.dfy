/** The two pure parts of the content generator: the system instruction
    chosen for a context tag, and the clean-up of the model's reply (code
    fences removed, then trimmed). The network call itself is not part of
    this model. */
module GeminiService {
  import opened Wrappers
  import opened JsString

  // ---------------------------------------------------------------------
  // System instruction

  const BaseInstruction: string :=
    "Você é um assistente especializado em gerar dados estruturados para QR Codes."

  /** The contexts the instruction distinguishes; every tag other than the
      four named ones, "creative" included, is generic. */
  datatype ContextKind = WifiContext | BusinessContext | EmailContext | SocialContext | GenericContext

  function KindOf(tag: string): (k: ContextKind)
    ensures k == GenericContext <==> tag !in {"wifi", "business", "email", "social"}
  {
    if tag == "wifi" then WifiContext
    else if tag == "business" then BusinessContext
    else if tag == "email" then EmailContext
    else if tag == "social" then SocialContext
    else GenericContext
  }

  /** The sentence appended to the base instruction for each context,
      written as its opening words and the rest of the sentence. */
  function Suffix(k: ContextKind): string {
    Opening(k) + Remainder(k)
  }

  /** The opening words of each context sentence; they already tell the
      contexts apart. */
  function Opening(k: ContextKind): string {
    match k
    case WifiContext => " O usuário fornecerá"
    case BusinessContext => " O usuário deseja um vCard"
    case EmailContext => " O usuário deseja compor"
    case SocialContext => " O usuário deseja um link"
    case GenericContext => " O usuário quer"
  }

  function Remainder(k: ContextKind): string {
    match k
    case WifiContext => WifiRemainder
    case BusinessContext => BusinessRemainder
    case EmailContext => EmailRemainder
    case SocialContext => SocialRemainder
    case GenericContext => GenericRemainder
  }

  const WifiRemainder: string :=
    " detalhes de rede. Formate a saída estritamente como uma string de conexão WIFI no padrão: WIFI:T:WPA;S:Nome;P:Senha;; Não inclua explicações ou blocos de código."
  const BusinessRemainder: string :=
    " 3.0. Retorne APENAS o texto do vCard começando com BEGIN:VCARD e terminando com END:VCARD. Não use blocos de código markdown."
  const EmailRemainder: string :=
    " um email. Retorne uma string no formato mailto:email@exemplo.com?subject=Assunto&body=Mensagem. Encode os espaços como %20."
  const SocialRemainder: string :=
    " para rede social ou um texto criativo para post. Se for um link, retorne apenas a URL. Se for um post, sugira um texto envolvente. Não inclua explicações."
  const GenericRemainder: string :=
    " um texto criativo ou link. Mantenha o conteúdo conciso e direto ao ponto."

  /** The system instruction for a context tag: the base sentence followed
      by exactly one context sentence. */
  function SystemInstruction(tag: string): (r: string)
    ensures StartsWith(r, BaseInstruction)
    ensures r[|BaseInstruction|..] == Suffix(KindOf(tag))
  {
    var r := BaseInstruction + Suffix(KindOf(tag));
    assert r[..|BaseInstruction|] == BaseInstruction;
    r
  }

  /** Every character of the opening words is a character of the sentence. */
  lemma SuffixAt(k: ContextKind, i: nat)
    requires i < |Opening(k)|
    ensures Suffix(k)[i] == Opening(k)[i]
  {
  }

  /** A position at which the opening words of two contexts differ. */
  function Probe(a: ContextKind, b: ContextKind): nat {
    if a == WifiContext || b == WifiContext || a == GenericContext || b == GenericContext then 11
    else if a == EmailContext || b == EmailContext then 18
    else 21
  }

  lemma OpeningsDiffer(a: ContextKind, b: ContextKind)
    requires a != b
    ensures Probe(a, b) < |Opening(a)| && Probe(a, b) < |Opening(b)|
    ensures Opening(a)[Probe(a, b)] != Opening(b)[Probe(a, b)]
  {
  }

  /** Distinct contexts have distinct sentences. */
  lemma SuffixesDistinct(a: ContextKind, b: ContextKind)
    requires a != b
    ensures Suffix(a) != Suffix(b)
  {
    OpeningsDiffer(a, b);
    var p := Probe(a, b);
    SuffixAt(a, p);
    SuffixAt(b, p);
  }

  /** Two tags get the same instruction exactly when they fall in the same
      context: each named context has its own sentence. */
  lemma InstructionsDistinct(a: string, b: string)
    ensures SystemInstruction(a) == SystemInstruction(b) <==> KindOf(a) == KindOf(b)
  {
    if KindOf(a) != KindOf(b) {
      SuffixesDistinct(KindOf(a), KindOf(b));
    }
  }

  // ---------------------------------------------------------------------
  // Request and response

  /** The model the request names and its generation settings. */
  const ModelName: string := "gemini-3-flash-preview"
  const MaxOutputTokens: nat := 1000
  const Temperature: real := 0.7

  /** What is sent for one prompt: the prompt as the contents and the
      instruction chosen by the context tag. */
  datatype Request = Request(
    model: string, contents: string, systemInstruction: string,
    maxOutputTokens: nat, temperature: real)

  function MakeRequest(prompt: string, tag: string): (r: Request)
    ensures r.contents == prompt
    ensures StartsWith(r.systemInstruction, BaseInstruction)
    ensures r.systemInstruction[|BaseInstruction|..] == Suffix(KindOf(tag))
  {
    Request(ModelName, prompt, SystemInstruction(tag), MaxOutputTokens, Temperature)
  }

  /** How the call ended: it threw (no API key, a failed request), or it
      returned a response whose text may be missing. */
  datatype Response = Failure | Reply(text: Option<string>)

  /** The generator's result: nothing when the call threw (the error is
      passed on to the caller), otherwise the cleaned text. */
  function Generate(response: Response): (r: Option<string>)
    ensures r.None? <==> response.Failure?
    ensures r.Some? ==> IsTrimmed(r.value) && NoFence(r.value)
    ensures response.Reply? && response.text.Some? && '`' !in response.text.value
            ==> r == Some(Trim(response.text.value))
  {
    match response
    case Failure => None
    case Reply(text) =>
      if text.Some? && '`' !in text.value then
        CleanPlain(text.value);
        Some(Clean(text))
      else Some(Clean(text))
  }

  // ---------------------------------------------------------------------
  // Reply clean-up

  predicate IsAsciiLetter(c: char) {
    ('a' <= c <= 'z') || ('A' <= c <= 'Z')
  }

  /** Number of ASCII letters at the start of `s`: the case-insensitive
      class of lower-case letters matches exactly these. */
  function LetterRun(s: string): (n: nat)
    ensures n <= |s|
    ensures forall i :: 0 <= i < n ==> IsAsciiLetter(s[i])
    ensures n < |s| ==> !IsAsciiLetter(s[n])
  {
    if s != [] && IsAsciiLetter(s[0]) then 1 + LetterRun(s[1..]) else 0
  }

  predicate StartsWithFence(s: string) {
    |s| >= 3 && s[0] == '`' && s[1] == '`' && s[2] == '`'
  }

  /** A string with no three backticks in a row. */
  predicate NoFence(s: string) {
    forall i :: 0 <= i < |s| - 2 ==> !StartsWithFence(s[i..])
  }

  /** Length of the fence opener at the start of `s`: three backticks, the
      letters that follow and an optional newline. */
  function OpenerLength(s: string): (n: nat)
    requires StartsWithFence(s)
    ensures 3 <= n <= |s|
  {
    var k := 3 + LetterRun(s[3..]);
    if k < |s| && s[k] == '\n' then k + 1 else k
  }

  /** First pass: every fence opener is deleted, scanning left to right and
      resuming after each deletion. */
  function StripOpeners(s: string): (r: string)
    ensures |r| <= |s|
    decreases |s|
  {
    if s == [] then []
    else if StartsWithFence(s) then StripOpeners(s[OpenerLength(s)..])
    else [s[0]] + StripOpeners(s[1..])
  }

  /** Second pass: every remaining run of three backticks is deleted. */
  function StripFences(s: string): (r: string)
    ensures |r| <= |s|
    decreases |s|
  {
    if s == [] then []
    else if StartsWithFence(s) then StripFences(s[3..])
    else [s[0]] + StripFences(s[1..])
  }

  /** The text returned for a reply; a missing text counts as "". */
  function Clean(text: Option<string>): (r: string)
    ensures IsTrimmed(r)
    ensures NoFence(r)
  {
    var once := StripOpeners(text.GetOr(""));
    StripOpenersNoFence(text.GetOr(""));
    StripFencesIdentity(once);
    TrimNoFence(once);
    Trim(StripFences(once))
  }

  /** A backtick at the start of the first pass's output was a backtick at
      the start of its input. */
  lemma StripOpenersHead(t: string)
    requires StripOpeners(t) != [] && StripOpeners(t)[0] == '`'
    ensures t != [] && t[0] == '`'
  {
  }

  /** Two backticks at the start of the first pass's output were two
      backticks at the start of its input. */
  lemma StripOpenersTwoHead(t: string)
    requires |StripOpeners(t)| >= 2 && StripOpeners(t)[0] == '`' && StripOpeners(t)[1] == '`'
    ensures |t| >= 2 && t[0] == '`' && t[1] == '`'
  {
    if !StartsWithFence(t) {
      assert StripOpeners(t) == [t[0]] + StripOpeners(t[1..]);
      StripOpenersHead(t[1..]);
    }
  }

  /** The first pass leaves no three backticks in a row: a backtick it
      keeps is never followed by a deletion, so runs never merge. */
  lemma {:induction false} StripOpenersNoFence(s: string)
    ensures NoFence(StripOpeners(s))
    decreases |s|
  {
    if s != [] {
      if StartsWithFence(s) {
        StripOpenersNoFence(s[OpenerLength(s)..]);
      } else {
        var rest := StripOpeners(s[1..]);
        StripOpenersNoFence(s[1..]);
        var r := [s[0]] + rest;
        forall i | 0 <= i < |r| - 2 ensures !StartsWithFence(r[i..]) {
          if i == 0 {
            if StartsWithFence(r) {
              StripOpenersTwoHead(s[1..]);
            }
          } else {
            assert r[i..] == rest[i - 1..];
          }
        }
      }
    }
  }

  /** The second pass changes nothing once there is no fence left. */
  lemma {:induction false} StripFencesIdentity(s: string)
    requires NoFence(s)
    ensures StripFences(s) == s
    decreases |s|
  {
    if s != [] {
      assert !StartsWithFence(s[0..]);
      assert s[0..] == s;
      assert NoFence(s[1..]) by {
        forall i | 0 <= i < |s[1..]| - 2 ensures !StartsWithFence(s[1..][i..]) {
          assert s[1..][i..] == s[i + 1..];
        }
      }
      StripFencesIdentity(s[1..]);
      assert [s[0]] + s[1..] == s;
    }
  }

  lemma TrimNoFence(s: string)
    requires NoFence(s)
    ensures NoFence(Trim(s))
  {
    var i, j :| 0 <= i <= j <= |s| && Trim(s) == s[i..j];
    NoFenceSlice(s, i, j);
  }

  /** A piece of a text without fences has none either. */
  lemma NoFenceSlice(s: string, i: nat, j: nat)
    requires NoFence(s) && i <= j <= |s|
    ensures NoFence(s[i..j])
  {
    var r := s[i..j];
    forall k | 0 <= k < |r| - 2 ensures !StartsWithFence(r[k..]) {
      assert !StartsWithFence(s[i + k..]);
      assert r[k..][0] == s[i + k..][0] && r[k..][1] == s[i + k..][1] && r[k..][2] == s[i + k..][2];
    }
  }

  /** A reply without text cleans to "". */
  lemma CleanMissing()
    ensures Clean(None) == ""
  {
    assert AllWhitespace("");
  }

  /** Text without a backtick is only trimmed. */
  lemma CleanPlain(s: string)
    requires '`' !in s
    ensures Clean(Some(s)) == Trim(s)
  {
    StripOpenersPlain(s);
    StripFencesPlain(s);
  }

  lemma {:induction false} StripOpenersPlain(s: string)
    requires '`' !in s
    ensures StripOpeners(s) == s
    decreases |s|
  {
    if s != [] {
      assert s[0] != '`';
      assert '`' !in s[1..] by {
        forall k | 0 <= k < |s[1..]| ensures s[1..][k] != '`' {
          assert s[1..][k] == s[k + 1];
        }
      }
      StripOpenersPlain(s[1..]);
      assert [s[0]] + s[1..] == s;
    }
  }

  lemma {:induction false} StripFencesPlain(s: string)
    requires '`' !in s
    ensures StripFences(s) == s
    decreases |s|
  {
    if s != [] {
      assert s[0] != '`';
      assert '`' !in s[1..] by {
        forall k | 0 <= k < |s[1..]| ensures s[1..][k] != '`' {
          assert s[1..][k] == s[k + 1];
        }
      }
      StripFencesPlain(s[1..]);
      assert [s[0]] + s[1..] == s;
    }
  }

  /** An opening fence with a language tag and its newline is deleted as
      a whole. */
  lemma OpenerWithTag(tag: string, body: string)
    requires forall i :: 0 <= i < |tag| ==> IsAsciiLetter(tag[i])
    ensures StripOpeners("```" + (tag + ("\n" + body))) == StripOpeners(body)
  {
    var s := "```" + (tag + ("\n" + body));
    OpenerLayout(tag, body);
    StripOpenersAtFence(s);
  }

  /** At a fence the first pass resumes right after the opener. */
  lemma StripOpenersAtFence(s: string)
    requires StartsWithFence(s)
    ensures StripOpeners(s) == StripOpeners(s[OpenerLength(s)..])
  {
  }

  /** Three backticks, letters and a newline form one opener. */
  lemma OpenerLayout(tag: string, body: string)
    requires forall i :: 0 <= i < |tag| ==> IsAsciiLetter(tag[i])
    ensures StartsWithFence("```" + (tag + ("\n" + body)))
    ensures OpenerLength("```" + (tag + ("\n" + body))) == |tag| + 4
    ensures ("```" + (tag + ("\n" + body)))[|tag| + 4..] == body
  {
    var s := "```" + (tag + ("\n" + body));
    assert s[3..] == tag + ("\n" + body);
    LetterRunOf(tag, "\n" + body);
    assert s[3 + |tag|] == '\n';
    assert s[3 + |tag| + 1..] == body;
  }

  lemma {:induction false} LetterRunOf(w: string, rest: string)
    requires forall i :: 0 <= i < |w| ==> IsAsciiLetter(w[i])
    requires rest == [] || !IsAsciiLetter(rest[0])
    ensures LetterRun(w + rest) == |w|
    decreases |w|
  {
    if w == [] {
      assert w + rest == rest;
    } else {
      assert (w + rest)[1..] == w[1..] + rest;
      LetterRunOf(w[1..], rest);
    }
  }

  /** A reply wrapped in a leading fence line such as "```json" loses the
      line and is otherwise only trimmed. */
  lemma CleanLeadingFence(tag: string, body: string)
    requires forall i :: 0 <= i < |tag| ==> IsAsciiLetter(tag[i])
    requires '`' !in body
    ensures Clean(Some("```" + (tag + ("\n" + body)))) == Trim(body)
  {
    OpenerWithTag(tag, body);
    StripOpenersPlain(body);
    StripFencesPlain(body);
  }
}
