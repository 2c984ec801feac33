/** The form's error map: one entry per required field that is blank. */
module Validation {

  /** The keys the form stores errors under. */
  datatype ErrorField = WifiSsid | VName | MailTo | SocialHandle | Content {

    /** The property name the error object uses for this key. */
    function Key(): string {
      match this
      case WifiSsid => "wifiSSID"
      case VName => "vName"
      case MailTo => "mailTo"
      case SocialHandle => "socialHandle"
      case Content => "content"
    }

    /** The message shown next to the field. */
    function Message(): (m: string)
      ensures |m| > 0
    {
      match this
      case WifiSsid => "O nome da rede (SSID) é obrigatório."
      case VName => "O nome é obrigatório."
      case MailTo => "O destinatário é obrigatório."
      case SocialHandle => "O usuário ou link é obrigatório."
      case Content => "Este campo é obrigatório."
    }
  }

  type Errors = map<ErrorField, string>

  /** The update one validation check makes: `{ ...prev, [field]: message }`
      when the field is blank, the object without `field` otherwise. Either
      way exactly one key is touched and every other entry is kept. */
  function Check(errors: Errors, field: ErrorField, blank: bool): (r: Errors)
    ensures blank ==> r.Keys == errors.Keys + {field} && r[field] == field.Message()
    ensures !blank ==> r.Keys == errors.Keys - {field}
    ensures forall g :: g != field && g in errors ==> g in r && r[g] == errors[g]
  {
    if blank then errors[field := field.Message()] else errors - {field}
  }

}
