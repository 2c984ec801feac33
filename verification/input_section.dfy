/** The input form: the active tab, the QR content, the error map, the
    fields of every structured tab and the AI prompt. Each structured tab
    keeps the content in step with its fields (the synchronisation effects),
    and the AI fill step writes a generated reply back into the fields of
    the active tab. Rendering is not part of this model. */
module InputSection {
  import opened Wrappers
  import opened JsString
  import opened QrTypes
  import opened Validation
  import WifiPayload
  import VCardPayload
  import MailtoPayload
  import SocialPayload
  import GeminiService

  datatype Form = Form(
    tab: QRMode,
    content: string,
    errors: Errors,
    wifi: WifiFields,
    vcard: VCardFields,
    email: EmailFields,
    social: SocialFields,
    prompt: string,
    aiOpen: bool)

  /** The form as it is first shown: the text tab, no errors, empty fields
      with "WPA" encryption and Instagram selected. The content comes from
      the settings the page starts with. */
  function Initial(content: string): (f: Form)
    ensures f.tab == Text && f.errors == map[] && Consistent(f)
  {
    Form(Text, content, map[],
         WifiFields("", "", DefaultEncryption, false),
         VCardFields("", "", "", "", "", ""),
         EmailFields("", "", ""),
         SocialFields(Instagram, ""),
         "", false)
  }

  /** The tabs whose content is built from fields. */
  predicate IsStructured(t: QRMode) {
    !(t.Text? || t.Url?)
  }

  /** The field a structured tab cannot do without. */
  function RequiredField(t: QRMode): ErrorField
    requires IsStructured(t)
  {
    match t
    case Wifi => WifiSsid
    case VCard => VName
    case Email => MailTo
    case Social => SocialHandle
  }

  function RequiredValue(f: Form): string
    requires IsStructured(f.tab)
  {
    match f.tab
    case Wifi => f.wifi.ssid
    case VCard => f.vcard.name
    case Email => f.email.to
    case Social => f.social.handle
  }

  /** The payload the active structured tab renders from its fields. */
  function Payload(f: Form): string
    requires IsStructured(f.tab)
  {
    match f.tab
    case Wifi => WifiPayload.Encode(f.wifi)
    case VCard => VCardPayload.Encode(f.vcard)
    case Email => MailtoPayload.Encode(f.email)
    case Social => SocialPayload.Encode(f.social)
  }

  /** The content and the errors of a structured tab agree with its fields:
      a blank required field means no content and its error message; a
      filled one means the tab's payload and no error for that field. */
  predicate Consistent(f: Form) {
    IsStructured(f.tab) ==>
      var field := RequiredField(f.tab);
      if IsBlank(RequiredValue(f)) then
        f.content == "" && field in f.errors && f.errors[field] == field.Message()
      else
        f.content == Payload(f) && field !in f.errors
  }

  /** Everything but the content and the errors is the same. */
  predicate SameInputs(f: Form, g: Form) {
    && f.tab == g.tab && f.wifi == g.wifi && f.vcard == g.vcard
    && f.email == g.email && f.social == g.social
    && f.prompt == g.prompt && f.aiOpen == g.aiOpen
  }

  /** Every error other than `field` is kept as it was. */
  predicate OthersKept(before: Errors, after: Errors, field: ErrorField) {
    forall g :: g != field ==> (g in after <==> g in before) && (g in before ==> after[g] == before[g])
  }

  // ---------------------------------------------------------------------
  // Synchronisation effects

  /** The effect of the active tab: the required field is checked, then the
      content is cleared or rebuilt. The text and link tabs have none. */
  function Sync(f: Form): (r: Form)
    ensures SameInputs(f, r)
    ensures !IsStructured(f.tab) ==> r == f
    ensures IsStructured(f.tab) ==> Consistent(r) && OthersKept(f.errors, r.errors, RequiredField(f.tab))
  {
    if !IsStructured(f.tab) then f
    else
      var field := RequiredField(f.tab);
      if IsBlank(RequiredValue(f)) then f.(content := "", errors := Check(f.errors, field, true))
      else f.(content := Payload(f), errors := Check(f.errors, field, false))
  }

  /** The effects are the only writers of a consistent form: running them
      changes the form exactly when it is not consistent. */
  lemma SyncFixesConsistent(f: Form)
    ensures Sync(f) == f <==> Consistent(f)
  {
    if IsStructured(f.tab) && Consistent(f) {
      var field := RequiredField(f.tab);
      if IsBlank(RequiredValue(f)) {
        assert f.errors[field := field.Message()] == f.errors;
      } else {
        assert f.errors - {field} == f.errors;
      }
    }
  }

  /** An effect runs after a render in which one of its dependencies
      changed: the active tab, or a field of the tab it serves. Only the
      effect of the active tab does anything. */
  predicate EffectRuns(prev: Form, next: Form) {
    || prev.tab != next.tab
    || match next.tab
       case Wifi => prev.wifi != next.wifi
       case VCard => prev.vcard != next.vcard
       case Email => prev.email != next.email
       case Social => prev.social != next.social
       case _ => false
  }

  /** The render after an update: the active tab's effect runs when one
      of its dependencies changed, and otherwise the update stands as it
      is. Only content and errors are ever written by the effect. */
  function Settle(prev: Form, next: Form): (r: Form)
    ensures SameInputs(next, r)
    ensures !EffectRuns(prev, next) ==> r == next
    ensures EffectRuns(prev, next) ==> Consistent(r)
    ensures EffectRuns(prev, next) && IsStructured(next.tab) ==>
      OthersKept(next.errors, r.errors, RequiredField(next.tab))
  {
    if EffectRuns(prev, next) then Sync(next) else next
  }

  /** A consistent form stays consistent when an update leaves the content
      and the errors alone, whether or not an effect runs. */
  lemma SettleConsistent(prev: Form, next: Form)
    requires Consistent(prev) || EffectRuns(prev, next)
    requires next.content == prev.content && next.errors == prev.errors
    ensures Consistent(Settle(prev, next))
  {
  }

  // ---------------------------------------------------------------------
  // User edits

  /** A new value for the fields of one structured tab. */
  datatype FieldEdit =
    | WifiEdit(wifi: WifiFields)
    | VCardEdit(vcard: VCardFields)
    | EmailEdit(email: EmailFields)
    | SocialEdit(social: SocialFields)
  {
    /** The tab whose fields the edit writes. */
    function Tab(): QRMode {
      match this
      case WifiEdit(_) => Wifi
      case VCardEdit(_) => VCard
      case EmailEdit(_) => Email
      case SocialEdit(_) => Social
    }
  }

  function WithEdit(f: Form, e: FieldEdit): Form {
    match e
    case WifiEdit(w) => f.(wifi := w)
    case VCardEdit(v) => f.(vcard := v)
    case EmailEdit(m) => f.(email := m)
    case SocialEdit(s) => f.(social := s)
  }

  /** Typing into a field of a structured tab, followed by the effects. An
      edit of a tab that is not shown runs no effect. */
  function Edit(f: Form, e: FieldEdit): (r: Form)
    ensures SameInputs(WithEdit(f, e), r)
    ensures e.Tab() != f.tab ==> r == WithEdit(f, e)
  {
    var next := WithEdit(f, e);
    assert e.Tab() != f.tab ==> !EffectRuns(f, next) by {
      if e.Tab() != f.tab {
        assert next.tab == f.tab;
      }
    }
    Settle(f, next)
  }

  /** Edits keep a consistent form consistent, and an edit that changes the
      shown tab's fields makes any form consistent. */
  lemma EditKeepsConsistent(f: Form, e: FieldEdit)
    requires Consistent(f) || (e.Tab() == f.tab && WithEdit(f, e) != f)
    ensures Consistent(Edit(f, e))
  {
    SettleConsistent(f, WithEdit(f, e));
  }

  /** Typing into the content box of the text and link tabs: the content
      is taken as typed and its error follows whether it is blank. */
  function EditContent(f: Form, value: string): (r: Form)
    ensures SameInputs(f, r) && r.content == value
    ensures Content in r.errors <==> IsBlank(value)
    ensures OthersKept(f.errors, r.errors, Content)
  {
    f.(content := value, errors := Check(f.errors, Content, IsBlank(value)))
  }

  /** Selecting a tab clears every error, then the new tab's effect runs.
      Selecting the tab already shown runs no effect, so it only clears. */
  function SwitchTab(f: Form, t: QRMode): (r: Form)
    ensures r.tab == t && SameInputs(f.(tab := t), r)
    ensures !IsStructured(t) ==> r.errors == map[] && r.content == f.content
    ensures IsStructured(t) ==> r.errors.Keys <= {RequiredField(t)}
    ensures t != f.tab ==> Consistent(r)
    ensures t == f.tab ==> r == f.(errors := map[])
  {
    Settle(f, f.(tab := t, errors := map[]))
  }

  // ---------------------------------------------------------------------
  // AI fill

  /** The context tag sent with the prompt for each tab. */
  function AiContext(t: QRMode): string {
    match t
    case Wifi => "wifi"
    case VCard => "business"
    case Email => "email"
    case Social => "social"
    case _ => "creative"
  }

  /** Each structured tab asks for its own instruction; the text and link
      tabs get the generic one. */
  lemma AiContextKind(t: QRMode)
    ensures GeminiService.KindOf(AiContext(t)) == match t
      case Wifi => GeminiService.WifiContext
      case VCard => GeminiService.BusinessContext
      case Email => GeminiService.EmailContext
      case Social => GeminiService.SocialContext
      case _ => GeminiService.GenericContext
  {
  }

  /** The request the form sends, or none when the prompt is blank. */
  function AiRequest(f: Form): (r: Option<GeminiService.Request>)
    ensures r.None? <==> IsBlank(f.prompt)
    ensures r.Some? ==> r.value.contents == f.prompt
    ensures r.Some? ==> StartsWith(r.value.systemInstruction, GeminiService.BaseInstruction)
                        && r.value.systemInstruction[|GeminiService.BaseInstruction|..]
                           == GeminiService.Suffix(GeminiService.KindOf(AiContext(f.tab)))
  {
    if IsBlank(f.prompt) then None
    else Some(GeminiService.MakeRequest(f.prompt, AiContext(f.tab)))
  }

  /** How one press of the AI button ends. */
  datatype AiStep =
    | Ignored
      // the prompt was blank: nothing is sent
    | Alerted(form: Form)
      // the connection alert is shown; prompt and panel stay as they were
    | Applied(form: Form)
      // the reply was written; prompt cleared, panel closed

  /** After a successful fill the prompt is emptied and the panel closed. */
  function Finish(f: Form): Form {
    f.(prompt := "", aiOpen := false)
  }

  /** What the form does with the generated text on each tab: structured
      tabs read their fields back from it (the effects then rebuild the
      content); when the reply cannot be read as such, and on the text and
      link tabs, the reply becomes the content as it is. */
  function ApplyResult(f: Form, result: string): (r: AiStep)
    ensures !r.Ignored? && r.form.tab == f.tab
    ensures r.Alerted? <==> f.tab == Email && MailtoPayload.Extract(f.email, result).Failed?
    ensures r.Applied? ==> r.form.prompt == "" && !r.form.aiOpen
    ensures r.Alerted? ==> r.form.prompt == f.prompt && r.form.aiOpen == f.aiOpen
    ensures f.tab == Email && MailtoPayload.Find(result).None? ==> r == Applied(Finish(f.(content := result)))
  {
    match f.tab
    case Wifi => Applied(Finish(ApplyWifi(f, result)))
    case VCard => Applied(Finish(ApplyVCard(f, result)))
    case Email => ApplyEmail(f, result)
    case Social => Applied(Finish(ApplySocial(f, result)))
    case _ => Applied(Finish(f.(content := result)))
  }

  /** On the Wi-Fi tab the reply is read back into the Wi-Fi fields. */
  function ApplyWifi(f: Form, result: string): (r: Form)
    requires f.tab == Wifi
    ensures r.wifi == WifiPayload.Extract(f.wifi, result)
    ensures SameInputs(f.(wifi := r.wifi), r)
    ensures Consistent(f) || r.wifi != f.wifi ==> Consistent(r)
  {
    var next := f.(wifi := WifiPayload.Extract(f.wifi, result));
    if Consistent(f) || EffectRuns(f, next) then
      SettleConsistent(f, next);
      Settle(f, next)
    else Settle(f, next)
  }

  /** On the vCard tab the reply is read back into the card fields. */
  function ApplyVCard(f: Form, result: string): (r: Form)
    requires f.tab == VCard
    ensures r.vcard == VCardPayload.Extract(result)
    ensures SameInputs(f.(vcard := r.vcard), r)
    ensures Consistent(f) || r.vcard != f.vcard ==> Consistent(r)
  {
    var next := f.(vcard := VCardPayload.Extract(result));
    if Consistent(f) || EffectRuns(f, next) then
      SettleConsistent(f, next);
      Settle(f, next)
    else Settle(f, next)
  }

  /** On the e-mail tab a reply that matches the mailto pattern is read
      back into the e-mail fields. When a parameter fails to decode, the
      fields written before the failure stay written and the alert is
      shown; a reply that does not match becomes the content. */
  function ApplyEmail(f: Form, result: string): (r: AiStep)
    requires f.tab == Email
    ensures !r.Ignored?
    ensures MailtoPayload.Find(result).None? ==> r == Applied(Finish(f.(content := result)))
    ensures r.Alerted? <==> MailtoPayload.Extract(f.email, result).Failed?
    ensures var x := MailtoPayload.Extract(f.email, result);
      !x.NoMatch? ==>
        && r.form.email == x.fields
        && SameInputs(f.(email := x.fields, prompt := r.form.prompt, aiOpen := r.form.aiOpen), r.form)
        && (Consistent(f) || x.fields != f.email ==> Consistent(r.form))
    ensures r.Applied? ==> r.form.prompt == "" && !r.form.aiOpen
    ensures r.Alerted? ==> r.form.prompt == f.prompt && r.form.aiOpen == f.aiOpen
  {
    match MailtoPayload.Extract(f.email, result)
    case NoMatch => Applied(Finish(f.(content := result)))
    case Filled(e) =>
      if Consistent(f) || e != f.email then
        SettleConsistent(f, f.(email := e));
        Applied(Finish(Settle(f, f.(email := e))))
      else Applied(Finish(Settle(f, f.(email := e))))
    case Failed(e) =>
      if Consistent(f) || e != f.email then
        SettleConsistent(f, f.(email := e));
        Alerted(Settle(f, f.(email := e)))
      else Alerted(Settle(f, f.(email := e)))
  }

  /** On the social tab a link becomes the handle; any other reply becomes
      the content and the handle is kept. */
  function ApplySocial(f: Form, result: string): (r: Form)
    requires f.tab == Social
    ensures StartsWith(result, "http") ==> r.social == f.social.(handle := result)
    ensures !StartsWith(result, "http") ==> r == f.(content := result)
  {
    if StartsWith(result, "http") then Settle(f, f.(social := f.social.(handle := result)))
    else f.(content := result)
  }

  /** One press of the AI button, given how the generator's call ended. */
  function AiGenerate(f: Form, response: GeminiService.Response): (r: AiStep)
    ensures r.Ignored? <==> IsBlank(f.prompt)
    ensures !IsBlank(f.prompt) && response.Failure? ==> r == Alerted(f)
    ensures !IsBlank(f.prompt) && response.Reply? ==>
      r == ApplyResult(f, GeminiService.Generate(response).value)
  {
    if IsBlank(f.prompt) then Ignored
    else
      match GeminiService.Generate(response)
      case None => Alerted(f)
      case Some(result) => ApplyResult(f, result)
  }

  // ---------------------------------------------------------------------
  // Properties of the AI fill

  lemma HttpNotBlank(s: string)
    requires StartsWith(s, "http")
    ensures !IsBlank(s)
  {
    assert s[0] == "http"[0];
    assert !IsWhitespace(s[0]);
  }

  /** The text and link tabs take the reply as the content and leave the
      errors as they were, a content error included. */
  lemma PlainTabReply(f: Form, result: string)
    requires !IsStructured(f.tab)
    ensures ApplyResult(f, result) == Applied(Finish(f.(content := result)))
    ensures ApplyResult(f, result).form.errors == f.errors
  {
  }

  /** A fill on the Wi-Fi or vCard tab keeps a consistent form consistent:
      the effect rebuilds the content whenever a field changed. */
  lemma FillKeepsConsistent(f: Form, result: string)
    requires f.tab == Wifi || f.tab == VCard
    requires Consistent(f)
    ensures Consistent(ApplyResult(f, result).form)
  {
  }

  /** A link reply on the social tab becomes the handle, and the content is
      that link, whether or not the effect runs again. */
  lemma SocialLinkReply(f: Form, result: string)
    requires f.tab == Social && Consistent(f)
    requires StartsWith(result, "http")
    ensures ApplyResult(f, result).Applied?
    ensures var g := ApplyResult(f, result).form;
      g.social.handle == result && g.content == result && SocialHandle !in g.errors
  {
    HttpNotBlank(result);
    var next := f.(social := f.social.(handle := result));
    assert SocialPayload.Encode(next.social) == result;
    if !EffectRuns(f, next) {
      assert next == f;
    }
  }

  /** Any other reply on the social tab is shown as the content and the
      handle stays as it was. */
  lemma SocialTextReply(f: Form, result: string)
    requires f.tab == Social
    requires !StartsWith(result, "http")
    ensures ApplyResult(f, result) == Applied(Finish(f.(content := result)))
    ensures ApplyResult(f, result).form.social == f.social
  {
  }

  /** A reply on the vCard tab that is itself a card of this form's shape
      fills the fields with their trimmed values, and the content becomes
      the card of those. */
  lemma VCardReplyRoundTrip(f: Form, v: VCardFields)
    requires Consistent(f) && f.tab == VCard
    requires VCardPayload.FieldsOnOneLine(v) && !IsBlank(v.name)
    ensures var g := ApplyResult(f, VCardPayload.Encode(v)).form;
      && g.vcard == VCardPayload.Trimmed(v)
      && g.content == VCardPayload.Encode(VCardPayload.Trimmed(v))
      && Consistent(g)
  {
    var reply := VCardPayload.Encode(v);
    VCardPayload.ExtractAfterEncode(v);
    VCardFilled(f, reply);
  }

  /** Generic form of the vCard fill with a non-blank name read back. */
  lemma VCardFilled(f: Form, reply: string)
    requires Consistent(f) && f.tab == VCard && !IsBlank(VCardPayload.Extract(reply).name)
    ensures var g := ApplyResult(f, reply).form;
      && g.vcard == VCardPayload.Extract(reply)
      && g.content == VCardPayload.Encode(g.vcard)
      && Consistent(g)
  {
    var next := f.(vcard := VCardPayload.Extract(reply));
    if !EffectRuns(f, next) {
      assert next == f;
    }
  }

  /** A reply on the Wi-Fi tab that is itself a Wi-Fi string of this form's
      shape fills SSID, password and encryption back when neither text
      holds a ';'; an open network's password comes back empty, and the
      hidden flag is not read from the reply. */
  lemma WifiReplyRoundTrip(f: Form, w: WifiFields)
    requires Consistent(f) && f.tab == Wifi
    requires WifiPayload.IsOffered(w.encryption)
    requires ';' !in w.ssid && !IsBlank(w.ssid)
    requires w.encryption != OpenNetwork ==> ';' !in w.password
    ensures var g := ApplyResult(f, WifiPayload.Encode(w)).form;
      && g.wifi == (if w.encryption == OpenNetwork then w.(password := "", hidden := f.wifi.hidden)
                    else w.(hidden := f.wifi.hidden))
      && g.content == WifiPayload.Encode(g.wifi)
  {
    var reply := WifiPayload.Encode(w);
    WifiPayload.ExtractAfterEncode(w, f.wifi);
    if w.encryption == OpenNetwork {
      assert WifiPayload.Extract(f.wifi, reply) == w.(password := "", hidden := f.wifi.hidden);
    } else {
      assert WifiPayload.Extract(f.wifi, reply) == w.(hidden := f.wifi.hidden);
    }
    WifiFilled(f, reply);
  }

  /** Generic form of the Wi-Fi fill with a non-blank SSID read back. */
  lemma WifiFilled(f: Form, reply: string)
    requires Consistent(f) && f.tab == Wifi && !IsBlank(WifiPayload.Extract(f.wifi, reply).ssid)
    ensures var g := ApplyResult(f, reply).form;
      && g.wifi == WifiPayload.Extract(f.wifi, reply)
      && g.content == WifiPayload.Encode(g.wifi)
      && Consistent(g)
  {
    var next := f.(wifi := WifiPayload.Extract(f.wifi, reply));
    if !EffectRuns(f, next) {
      assert next == f;
    }
  }

  /** A reply on the e-mail tab that is itself a mailto payload of this
      form's shape fills the three fields back when the recipient holds no
      '?'. */
  lemma EmailReplyRoundTrip(f: Form, e: EmailFields)
    requires Consistent(f) && f.tab == Email && '?' !in e.to && !IsBlank(e.to)
    ensures ApplyResult(f, MailtoPayload.Encode(e)).Applied?
    ensures var g := ApplyResult(f, MailtoPayload.Encode(e)).form;
      g.email == e && g.content == MailtoPayload.Encode(e)
  {
    var reply := MailtoPayload.Encode(e);
    MailtoPayload.ExtractAfterEncode(f.email, e);
    EmailFilled(f, reply, e);
  }

  lemma EmailFilled(f: Form, reply: string, e: EmailFields)
    requires Consistent(f) && f.tab == Email
    requires MailtoPayload.Extract(f.email, reply) == MailtoPayload.Filled(e)
    requires !IsBlank(e.to)
    ensures ApplyResult(f, reply).Applied?
    ensures var g := ApplyResult(f, reply).form;
      g.email == e && g.content == MailtoPayload.Encode(e) && Consistent(g)
  {
    var next := f.(email := e);
    if !EffectRuns(f, next) {
      assert next == f;
    }
  }
}
