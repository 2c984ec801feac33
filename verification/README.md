# QR content generator — payload layer

This project models the part of the QR code generator that turns form fields
into QR payload strings and reads AI replies back into those fields:

- the input form (`components/InputSection.tsx`): the active tab, the error
  map, the synchronisation effects that rebuild the content from the fields,
  tab switching, the content box and the AI fill step;
- the four payload encoders: the Wi-Fi string `WIFI:T:…;S:…;P:…;H:…;;`, the
  vCard 3.0 text, the `mailto:` URI with percent-encoded subject and body, and
  the social profile link;
- the four extractors the AI fill step uses on the reply: the Wi-Fi `key:value`
  regular expression, the vCard property regular expression (multiline, case
  insensitive), the `mailto:` regular expression with `decodeURIComponent`,
  and the "starts with http" test;
- the content generator (`services/geminiService.ts`): the system instruction
  chosen by the context tag, the request it sends, and the clean-up of the
  reply (code fences removed, then trimmed).

JavaScript strings are modelled as Dafny strings of Unicode scalar values.
`trim` uses the exact ECMAScript white-space and line-terminator set. The patterns
the `/i` flag is applied to are made of ASCII letters, so case folding is
modelled on ASCII letters only. `encodeURIComponent` and
`decodeURIComponent` follow ECMA-262 (section 19.2.6 of the 2024
edition, including the Encode and Decode abstract operations), with full UTF-8. That includes every `URIError` decoding can
raise: a short or non-hex escape, a bad lead byte, a bad continuation byte, an
overlong form, a surrogate, or a value above U+10FFFF.

The network call is a parameter: `GeminiService.Response` says whether the
call threw, and what text the response carried. React's effect scheduling is
modelled as "an effect runs after an update that changed one of its
dependencies" (`InputSection.Settle`).

Modules: `Wrappers` (Option/Result), `JsString` (trim, `indexOf`, case-folded
prefix, first-occurrence replace), `QrTypes`, `Validation` (the error map),
`WifiPayload`, `VCardPayload`, `UriComponent`, `MailtoPayload`,
`SocialPayload`, `GeminiService`, `InputSection`.

## Model

| member | source | states |
|---|---|---|
| JsString.Trim | components/InputSection.tsx:54 | the result is a slice of the input with only white space cut from either end, it is trimmed, and it is empty exactly when the input is all white space (the blank test of every required field) |
| JsString.TrimOfPadded | components/InputSection.tsx:170 | trimming white space, a trimmed core and white space gives that core, so the value `trim` returns is determined uniquely |
| JsString.IndexOf | components/InputSection.tsx:179 | the index of the first occurrence, or the length when there is none; nothing before it is the character |
| JsString.RemoveFirst | components/InputSection.tsx:133 | `replace('@', '')` deletes only the first '@' and leaves a string without '@' unchanged |
| Validation.Check | components/InputSection.tsx:54-62 | a blank field adds exactly its key with its message, a filled one removes exactly its key, and every other entry is kept |
| WifiPayload.Unescape | components/InputSection.tsx:161 | dropping the escaping backslashes never lengthens a value, and a value without a backslash is kept as it is |
| WifiPayload.AfterKey | components/InputSection.tsx:160 | there is no text after a key `K` exactly when `K:` occurs nowhere in the text |
| WifiPayload.AfterKeyFirst | components/InputSection.tsx:160 | the text found follows the first `K:` of the text, and no earlier position starts a `K:` |
| WifiPayload.ParseKey | components/InputSection.tsx:159-161 | a key that does not occur reads as "" |
| WifiPayload.Escape | components/InputSection.tsx:63 | every special character gains one backslash: the length grows by the number of `\ ; : ,` characters |
| WifiPayload.UnescapeEscape | components/InputSection.tsx:161 | unescaping undoes the encoder's escaping for every string |
| WifiPayload.EscapeChars | components/InputSection.tsx:63 | escaping neither adds nor removes any character other than the backslash |
| WifiPayload.EscapeIdentity | components/InputSection.tsx:63 | text without a special character is left as it is |
| WifiPayload.Encode | components/InputSection.tsx:63-68 | the payload length is the header, the escaped SSID field, the password field (only when the network is not open) and the hidden flag |
| WifiPayload.Extract | components/InputSection.tsx:159-165 | SSID and password are the parsed `S` and `P` values; the encryption is the parsed `T` value when that is not empty, and "WPA" when `T` is missing or empty; the hidden flag is not touched |
| WifiPayload.SsidReadBack | components/InputSection.tsx:159-161 | the SSID read back from a payload is the SSID itself, or, when it holds a ';', the part before its first ';' followed by the backslash that escaped it |
| WifiPayload.SsidRoundTrip | components/InputSection.tsx:159-163 | reading `S` back from a payload gives the SSID exactly when the SSID has no ';' |
| WifiPayload.PasswordRoundTrip | components/InputSection.tsx:159-164 | reading `P` back gives the password exactly when the password has no ';' |
| WifiPayload.OpenNetworkHasNoPassword | components/InputSection.tsx:67 | an open network's payload has no `P:` field, so the password reads back as "" |
| WifiPayload.OfferedIsPlain | components/InputSection.tsx:66 | each offered encryption holds no ';' and is not changed by escaping |
| WifiPayload.EncryptionRoundTrip | components/InputSection.tsx:165 | each encryption the form offers reads back as itself |
| WifiPayload.ExtractAfterEncode | components/InputSection.tsx:158-165 | the fill step on an encoded payload restores the encryption, keeps the hidden flag, and restores SSID and password exactly when they hold no ';' |
| WifiPayload.SemicolonSsidLost | components/InputSection.tsx:160 | the SSID "a;b" reads back as "a\\": the value stops at the escaped ';' |
| WifiPayload.CutDiffers | components/InputSection.tsx:160-161 | a value cut at its first ';' never equals the value it came from |
| WifiPayload.ExtractFixed | components/InputSection.tsx:159-165 | the corrected extractor reads SSID, password and encryption with the corrected scan, the encryption falling back to "WPA" when empty, and keeps the hidden flag |
| WifiPayload.FixedSsidRoundTrip | components/InputSection.tsx:160-161 | with the corrected scan the SSID reads back exactly, ';' included |
| WifiPayload.FixedPasswordRoundTrip | components/InputSection.tsx:160-164 | with the corrected scan the password reads back exactly, or "" for an open network |
| WifiPayload.FixedEncryptionRoundTrip | components/InputSection.tsx:159-165 | with the corrected scan each offered encryption still reads back as itself |
| WifiPayload.ExtractFixedAfterEncode | components/InputSection.tsx:158-165 | with the corrected scan every SSID and password is restored, "" for an open network's password |
| VCardPayload.NonEmptyFilters | components/InputSection.tsx:96 | `filter(Boolean)` keeps exactly the non-empty lines |
| VCardPayload.LinesOfCard | components/InputSection.tsx:85-96 | the filtered lines are the four fixed lines, one line per non-empty optional field in the order ORG, TITLE, TEL, EMAIL, URL, then END; five plus the number of such fields |
| VCardPayload.SplitJoin | components/InputSection.tsx:96 | splitting at newlines undoes the join when no line holds a newline |
| VCardPayload.Encode | components/InputSection.tsx:85-96 | the payload is the card's lines joined by newlines, and splitting it at newlines gives those lines back when no field holds a newline |
| VCardPayload.PayloadLines | components/InputSection.tsx:85-97 | the payload's lines are exactly the card's lines, BEGIN first and END last |
| VCardPayload.KeyMatch | components/InputSection.tsx:168 | a match needs the name in any case at the line start, followed by ':' or by ';' with a ':' later; the value starts after that ':' |
| VCardPayload.ParseFrom | components/InputSection.tsx:168 | a value found lies on one line; which value is found is stated by `ParseFromFirst`, and when nothing is found by `ParseFromNone` |
| VCardPayload.ParseFromFirst | components/InputSection.tsx:168 | a value found comes from the first line start (after any line terminator) where the property matches, and runs from the match to the end of that line |
| VCardPayload.ParseFromNone | components/InputSection.tsx:168 | nothing is found exactly when the property matches at no line start (the start of the text or just after a line terminator) |
| VCardPayload.ParseV | components/InputSection.tsx:167-171 | the value read is trimmed and on one line |
| VCardPayload.Extract | components/InputSection.tsx:166-177 | every one of the six fields is overwritten with the value read for its property |
| VCardPayload.NoColonEmpty | components/InputSection.tsx:167-177 | a reply without ':' clears every field |
| VCardPayload.AnyCaseMatches | components/InputSection.tsx:168 | a property name is matched in any letter case |
| VCardPayload.ParamsCrossLines | components/InputSection.tsx:168 | after `KEY;` the search for ':' may run past the end of the line, and the value then comes from the line where it stops |
| VCardPayload.ExtractAfterEncode | components/InputSection.tsx:85-96 | filling from the form's own payload gives back every field trimmed, when no field holds a line terminator |
| VCardPayload.NameReadBack | components/InputSection.tsx:88 | the FN value read from a card is the trimmed name |
| VCardPayload.OrgReadBack | components/InputSection.tsx:90 | the ORG value read from a card is the trimmed organisation, "" when it was left out |
| VCardPayload.TitleReadBack | components/InputSection.tsx:91 | the TITLE value read from a card is the trimmed title, "" when it was left out |
| VCardPayload.PhoneReadBack | components/InputSection.tsx:92 | the TEL value read past the `;TYPE=CELL` parameter is the trimmed phone, "" when it was left out |
| VCardPayload.EmailReadBack | components/InputSection.tsx:93 | the EMAIL value read past the `;TYPE=INTERNET` parameter is the trimmed address, "" when it was left out |
| VCardPayload.UrlReadBack | components/InputSection.tsx:94 | the URL value read from a card is the trimmed URL, "" when it was left out |
| VCardPayload.RoundTripExact | components/InputSection.tsx:166-177 | filling from the payload gives back the fields exactly when every field is already trimmed |
| VCardPayload.TrimmedFixes | components/InputSection.tsx:170 | trimming every field changes nothing exactly when every field is already trimmed |
| UriComponent.Encode | components/InputSection.tsx:113 | the output is encoded: every character is unreserved or a '%' that starts two upper-case hex digits; it is never shorter than the input |
| UriComponent.EncodedChars | components/InputSection.tsx:113 | an encoded string holds only unreserved characters and '%' |
| UriComponent.EncodedHasNoDelimiter | components/InputSection.tsx:113 | an encoded parameter has no '&', '?', '=', '#', space or line terminator |
| UriComponent.EncodeIdentity | components/InputSection.tsx:113 | encoding leaves a string unchanged exactly when all its characters are unreserved |
| UriComponent.Utf8Decodes | components/InputSection.tsx:113 | each character's UTF-8 bytes decode back to that character |
| UriComponent.Utf8 | components/InputSection.tsx:113 | each character is one to four bytes, and one byte exactly when it is ASCII |
| UriComponent.Decode | components/InputSection.tsx:182-183 | a successful decode is never longer than its input |
| UriComponent.DecodeAfterPlain | components/InputSection.tsx:182-183 | text without '%' in front of a string neither causes nor hides a decoding error, and is copied as it is |
| UriComponent.DecodeFailsAtEscape | components/InputSection.tsx:182-183 | the first escape failing to decode makes the whole parameter throw |
| UriComponent.DecodeBadHex | components/InputSection.tsx:182-183 | a '%' not followed by two hex digits makes the parameter throw, whatever text without '%' comes before it |
| UriComponent.DecodeBadLead | components/InputSection.tsx:182-183 | an escape whose byte is a continuation byte or starts more than four bytes makes the parameter throw |
| UriComponent.DecodeEncode | components/InputSection.tsx:182-183 | decoding undoes encoding for every string |
| UriComponent.DecodePlain | components/InputSection.tsx:182-183 | text without '%' decodes to itself |
| UriComponent.LatinOneEscapeFails | components/InputSection.tsx:182 | a Latin-1 escape such as "caf%E9" raises the decoding error |
| UriComponent.LowerCaseEscape | components/InputSection.tsx:182 | lower-case hex digits decode, and an escaped '%' is not decoded twice |
| MailtoPayload.Encode | components/InputSection.tsx:113 | the payload starts with `mailto:` |
| MailtoPayload.Find | components/InputSection.tsx:179 | every match has a recipient without '?', a subject without '&' and a body on one line; a match at the start wins |
| MailtoPayload.FindLeftmost | components/InputSection.tsx:179 | the match found is the leftmost one, and none is found only when no position matches |
| MailtoPayload.MatchAt | components/InputSection.tsx:179 | a match at a position needs `mailto:` in any case there; its recipient has no '?', its subject no '&' and its body no line terminator |
| MailtoPayload.Extract | components/InputSection.tsx:179-186 | no match iff the pattern does not match; when both parameters decode the fields become the recipient and the decoded subject and body; when the subject fails only the recipient has been written; when only the body fails the recipient and the decoded subject have been written |
| MailtoPayload.ExtractAfterEncode | components/InputSection.tsx:113 | filling from the form's own payload restores recipient, subject and body exactly when the recipient holds no '?' |
| MailtoPayload.MalformedSubjectKeepsRecipient | components/InputSection.tsx:181-182 | a subject that fails to decode leaves the recipient written and the other fields as they were |
| MailtoPayload.MatchAtAnyCase | components/InputSection.tsx:179 | with `mailto:`, `subject=` and `body=` written in any letter case, a recipient without '?' and a subject without '&', the match gives exactly those groups, and the body group stops at the first line terminator whatever follows |
| MailtoPayload.MatchAtLayout | components/InputSection.tsx:179 | a text laid out as the encoder lays it out matches at its start with its own three groups |
| MailtoPayload.LatinOneSubject | components/InputSection.tsx:181-182 | a Latin-1 escaped subject fails after the recipient has been written |
| SocialPayload.ProfilePath | components/InputSection.tsx:133-135 | LinkedIn keeps the handle; Instagram and X drop one character, the first '@', when there is one |
| SocialPayload.Encode | components/InputSection.tsx:131-136 | the link always starts with "http"; a handle starting with "http" is used as it is, and any other is appended to the network's profile URL |
| SocialPayload.HandleReadBack | components/InputSection.tsx:131-136 | the profile link read back after the base URL gives the handle minus the dropped '@' |
| SocialPayload.EncodeIdempotent | components/InputSection.tsx:131-132 | rendering a rendered link again gives the same link |
| SocialPayload.AtInsideHandle | components/InputSection.tsx:133-134 | the first '@' is dropped even from the middle of a handle |
| SocialPayload.UpperCaseLinkIsHandle | components/InputSection.tsx:132 | the "http" test is case sensitive: "HTTPS://…" is treated as a handle |
| GeminiService.KindOf | services/geminiService.ts:16-28 | a tag gets the generic context exactly when it is none of "wifi", "business", "email" and "social" |
| GeminiService.SystemInstruction | services/geminiService.ts:16-28 | the instruction starts with the base sentence and the rest is the one sentence of its context |
| GeminiService.InstructionsDistinct | services/geminiService.ts:18-28 | two tags get the same instruction exactly when they fall in the same context |
| GeminiService.SuffixesDistinct | services/geminiService.ts:18-28 | the five context sentences are pairwise different |
| GeminiService.MakeRequest | services/geminiService.ts:30-38 | the request carries the prompt as its contents and the instruction of the tag |
| GeminiService.Generate | services/geminiService.ts:41-47 | nothing comes back iff the call threw; otherwise the text has no code fence and is trimmed, and text without backticks is only trimmed |
| GeminiService.Clean | services/geminiService.ts:41-42 | the cleaned text is trimmed and holds no three backticks in a row |
| GeminiService.StripOpenersNoFence | services/geminiService.ts:42 | the first replacement already leaves no "```" |
| GeminiService.StripFencesIdentity | services/geminiService.ts:42 | so the second replacement changes nothing |
| GeminiService.StripOpenersPlain | services/geminiService.ts:42 | the first replacement leaves text without a backtick unchanged |
| GeminiService.StripFencesPlain | services/geminiService.ts:42 | the second replacement leaves text without a backtick unchanged |
| GeminiService.CleanMissing | services/geminiService.ts:41 | a missing text cleans to "" |
| GeminiService.CleanPlain | services/geminiService.ts:41-42 | text without a backtick is only trimmed |
| GeminiService.CleanLeadingFence | services/geminiService.ts:42 | an opening fence line such as "```json" is removed whole |
| GeminiService.OpenerWithTag | services/geminiService.ts:42 | a fence with a language tag and its newline is removed, and the scan goes on after it |
| InputSection.Initial | components/InputSection.tsx:17-45 | the form starts on the text tab with no errors, and is consistent |
| InputSection.Sync | components/InputSection.tsx:52-139 | an effect touches only content and errors, only the required field's error, and leaves the form consistent; the text and link tabs have no effect |
| InputSection.SyncFixesConsistent | components/InputSection.tsx:52-139 | running the effect changes the form exactly when the form is not consistent |
| InputSection.Settle | components/InputSection.tsx:52-139 | the inputs are never changed; with none of the shown tab's dependencies changed nothing happens; otherwise the form ends consistent and only the required field's error can change |
| InputSection.SettleConsistent | components/InputSection.tsx:52-139 | after an update that runs the tab's effect, or from a consistent form, the settled form is consistent |
| InputSection.Edit | components/InputSection.tsx:52-139 | an edit changes only its own fields apart from content and errors, and an edit on a tab that is not shown runs no effect |
| InputSection.EditKeepsConsistent | components/InputSection.tsx:52-139 | edits keep a consistent form consistent, and an edit that changes the shown tab's fields makes any form consistent |
| InputSection.EditContent | components/InputSection.tsx:395-401 | the content is taken as typed; its error is present iff it is blank; no other error changes |
| InputSection.SwitchTab | components/InputSection.tsx:141-144 | a new tab leaves the form consistent, with at most that tab's required-field error; the text and link tabs keep the previous content with no errors; selecting the shown tab only clears the errors |
| InputSection.AiContextKind | components/InputSection.tsx:150-154 | each structured tab asks for its own instruction; text and link get the generic one |
| InputSection.AiRequest | components/InputSection.tsx:146-156 | nothing is sent iff the prompt is blank; the request carries the prompt and the tab's instruction |
| InputSection.AiGenerate | components/InputSection.tsx:146-202 | a blank prompt is ignored; a call that threw shows the alert and changes nothing; otherwise the cleaned reply is applied |
| InputSection.ApplyResult | components/InputSection.tsx:158-199 | the alert is shown iff an e-mail reply matched but failed to decode; an e-mail reply the pattern does not match becomes the content; a successful fill clears the prompt and closes the panel; an alert keeps both |
| InputSection.ApplyEmail | components/InputSection.tsx:178-186 | a reply that does not match becomes the content; otherwise the e-mail fields become the extracted ones (also when decoding throws, as far as they were written) and only content and errors change besides; the alert is shown iff decoding threw |
| InputSection.ApplyWifi | components/InputSection.tsx:158-165 | the Wi-Fi fields become the extracted ones, and a change of them leaves the form consistent |
| InputSection.ApplyVCard | components/InputSection.tsx:166-177 | the card fields become the extracted ones, and a change of them leaves the form consistent |
| InputSection.ApplySocial | components/InputSection.tsx:187-192 | a link becomes the handle; any other reply becomes the content and the handle is kept |
| InputSection.PlainTabReply | components/InputSection.tsx:193-194 | on the text and link tabs the reply becomes the content and the errors stay, a content error included |
| InputSection.FillKeepsConsistent | components/InputSection.tsx:158-177 | a fill on the Wi-Fi or vCard tab keeps a consistent form consistent |
| InputSection.SocialLinkReply | components/InputSection.tsx:187-189 | a link reply becomes both the handle and the content, with no handle error |
| InputSection.SocialTextReply | components/InputSection.tsx:190-191 | any other reply becomes the content and the handle is unchanged |
| InputSection.VCardReplyRoundTrip | components/InputSection.tsx:166-177 | a reply that is a card of the form's own shape fills the trimmed fields, and the content becomes the card of those |
| InputSection.WifiReplyRoundTrip | components/InputSection.tsx:158-165 | a reply that is a Wi-Fi string of the form's own shape restores SSID and encryption, and the password (or "" for an open network, whose payload has none) when they hold no ';'; the content is rebuilt |
| InputSection.EmailReplyRoundTrip | components/InputSection.tsx:178-183 | a reply that is a mailto payload of the form's own shape restores the three fields, and the content is rebuilt |

## Left out

- Rendering, icons, the password visibility toggle and the colour, margin and error-level settings: they are not part of the payload logic.
- `isGenerating` and the `finally` that resets it: a UI flag with no effect on the fields.
- Concurrency: two fills can overlap, and one can finish after the tab changed. The model applies each reply to the form as it stands.
- React batching and effect scheduling: an update and the effects it triggers are one step (`InputSection.Settle`).
- The network call, the API key lookup and the `console.error` call: `GeminiService.Response` is a parameter.
- The temperature is kept as the decimal 0.7; floating point is not modelled.
- JavaScript strings holding lone surrogates: Dafny strings hold only scalar values, so the `URIError` that `encodeURIComponent` raises for them cannot arise here.
- `components/PreviewSection.tsx`, `App.tsx` and the QR rendering library are not part of this model. The content a form starts with is a parameter of `InputSection.Initial`.
- InputSection.SwitchTab: selecting the tab already shown only clears the errors, which can leave that tab without its required-field message. This is stated as it happens, not as a guarantee of consistency.
- InputSection.VCardReplyRoundTrip, InputSection.WifiReplyRoundTrip and InputSection.EmailReplyRoundTrip assume a consistent form. On an inconsistent one the effect does not run when the extracted fields equal the old ones.
- WifiPayload.ExtractAfterEncode covers only the encryptions the form offers ("WPA", "WEP", "nopass"). An AI reply may carry any `T` value, and that value is read up to the first ';'.

## Findings

| source | as written | input that shows it | evidently intended | confidence | as-written member | corrected member |
|---|---|---|---|---|---|---|
| components/InputSection.tsx:160-161 | the `S`/`P` value is read as `[^;]*`, so it stops at the ';' the encoder escaped as `\;` | SSID "a;b" is written as `S:a\;b;` and read back as "a\\" | the value is read up to the first unescaped ';' (`(?:[^;\\]\|\\[\s\S])*\\?`: a backslash always takes the next character, whatever it is, and a lone backslash at the end is kept), so every SSID and password round-trips | not executed | WifiPayload.SemicolonSsidLost | WifiPayload.ExtractFixedAfterEncode |

In the model the AI fill step (`InputSection.ApplyWifi`) keeps the as-written
extractor, `WifiPayload.Extract`, because that is what the form does. The
corrected extractor, `WifiPayload.ExtractFixed`, is proved to round-trip.
