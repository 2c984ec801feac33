/** The content modes of the QR form and the field records each structured
    mode keeps while it is being edited. */
module QrTypes {

  /** The tabs of the form; each selects one encoder and one extractor. */
  datatype QRMode = Text | Url | Wifi | Email | VCard | Social

  /** The social networks a profile link can be synthesised for. */
  datatype Platform = Instagram | Twitter | LinkedIn

  /** Wi-Fi credentials. The encryption is kept as the text the select box
      or the AI reply supplied: "WPA", "WEP", "nopass" or anything else. */
  datatype WifiFields = WifiFields(ssid: string, password: string, encryption: string, hidden: bool)

  datatype VCardFields = VCardFields(
    name: string, phone: string, email: string, org: string, title: string, url: string)

  datatype EmailFields = EmailFields(to: string, subject: string, body: string)

  datatype SocialFields = SocialFields(platform: Platform, handle: string)

  /** The encryption the Wi-Fi form starts with, and the one an AI reply
      without a usable `T:` value falls back to. */
  const DefaultEncryption: string := "WPA"

  /** The encryption value that means an open network. */
  const OpenNetwork: string := "nopass"
}
