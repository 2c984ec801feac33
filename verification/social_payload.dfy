/** The profile link the social tab renders from a handle or a link. */
module SocialPayload {
  import opened Wrappers
  import opened JsString
  import opened QrTypes

  /** The profile URL prefix of each network. */
  function ProfileBase(p: Platform): (r: string)
    ensures StartsWith(r, "https://")
  {
    match p
    case Instagram => "https://instagram.com/"
    case Twitter => "https://x.com/"
    case LinkedIn => "https://linkedin.com/in/"
  }

  /** What the link keeps of a handle: Instagram and X drop the first '@',
      wherever it stands; LinkedIn keeps the handle as typed. */
  function ProfilePath(p: Platform, handle: string): (r: string)
    ensures p == LinkedIn || '@' !in handle ==> r == handle
    ensures p != LinkedIn && '@' in handle ==> |r| == |handle| - 1
  {
    if p == LinkedIn then handle else RemoveFirst(handle, '@')
  }

  /** The payload: a handle that already starts with "http" (case
      sensitive) is used as it is; any other is appended to the network's
      profile URL. */
  function Encode(f: SocialFields): (r: string)
    ensures StartsWith(r, "http")
    ensures StartsWith(f.handle, "http") ==> r == f.handle
    ensures !StartsWith(f.handle, "http") ==> StartsWith(r, ProfileBase(f.platform))
  {
    if StartsWith(f.handle, "http") then f.handle
    else
      PrefixOfPrefix(ProfileBase(f.platform), ProfilePath(f.platform, f.handle));
      ProfileBase(f.platform) + ProfilePath(f.platform, f.handle)
  }

  lemma PrefixOfPrefix(base: string, rest: string)
    requires StartsWith(base, "https://")
    ensures StartsWith(base + rest, "http") && StartsWith(base + rest, base)
  {
    assert (base + rest)[..|base|] == base;
    assert (base + rest)[..4] == base[..4];
  }

  /** The handle part of a profile link of network `p`. */
  function HandleOf(p: Platform, url: string): (r: Option<string>)
    ensures r.Some? <==> StartsWith(url, ProfileBase(p))
    ensures r.Some? ==> ProfileBase(p) + r.value == url
  {
    if StartsWith(url, ProfileBase(p)) then
      assert url == url[..|ProfileBase(p)|] + url[|ProfileBase(p)|..];
      Some(url[|ProfileBase(p)|..])
    else None
  }

  /** A handle that is not a link is found again in the profile link,
      minus the '@' the network drops. */
  lemma HandleReadBack(f: SocialFields)
    requires !StartsWith(f.handle, "http")
    ensures HandleOf(f.platform, Encode(f)) == Some(ProfilePath(f.platform, f.handle))
  {
    var base := ProfileBase(f.platform);
    var path := ProfilePath(f.platform, f.handle);
    assert (base + path)[..|base|] == base;
    assert (base + path)[|base|..] == path;
  }

  /** Feeding the rendered link back in as the handle renders the same
      link: the output always starts with "http". */
  lemma EncodeIdempotent(f: SocialFields)
    ensures Encode(f.(handle := Encode(f))) == Encode(f)
  {
  }

  /** The first '@' is dropped even from the middle of the handle; any
      later '@' stays. */
  lemma AtInsideHandle(p: Platform, x: string, y: string)
    requires p != LinkedIn && '@' !in x
    requires !StartsWith(x + ("@" + y), "http")
    ensures Encode(SocialFields(p, x + ("@" + y))) == ProfileBase(p) + (x + y)
  {
    RemoveFirstAfter(x, '@', y);
  }

  /** The "http" test is case sensitive: an upper-case link is taken for a
      handle. */
  lemma UpperCaseLinkIsHandle()
    ensures Encode(SocialFields(LinkedIn, "HTTPS://a.b")) == "https://linkedin.com/in/HTTPS://a.b"
  {
    assert "HTTPS://a.b"[0] == 'H';
  }
}
