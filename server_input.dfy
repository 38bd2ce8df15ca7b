/**
 * The input normalisation of the link server: the display-name validator and the base URL the
 * admin page prints in front of every QR and redirect link.
 */
module ServerInput {
  import opened Wrappers
  import opened JsBuiltins

  /** Longest display name the server stores. */
  const MaxNameLength := 80

  function Min(a: int, b: int): int {
    if a <= b then a else b
  }

  /**
   * parseName. `input` is None for a missing field and for any value that is not a string;
   * None as the result is null.
   */
  function ParseName(input: Option<string>): (r: Option<string>)
    ensures r.None? <==> input.None? || AllWhiteSpace(input.value)
    ensures r.Some? ==> IsPrefix(r.value, Trim(input.value))
    ensures r.Some? ==> |r.value| == Min(|Trim(input.value)|, MaxNameLength)
    ensures r.Some? ==> 1 <= |r.value| <= MaxNameLength
  {
    if input.None? then None
    else if |input.value| == 0 then
      assert AllWhiteSpace(input.value);
      None
    else
      TrimEmptyIff(input.value);
      CutName(Trim(input.value))
  }

  /** The checks parseName makes on the trimmed string: empty is null, longer than 80 is cut. */
  function CutName(trimmed: string): (r: Option<string>)
    ensures r.None? <==> |trimmed| == 0
    ensures r.Some? ==> IsPrefix(r.value, trimmed) && |r.value| == Min(|trimmed|, MaxNameLength)
  {
    if |trimmed| == 0 then None
    else if |trimmed| > MaxNameLength then Some(trimmed[..MaxNameLength])
    else Some(trimmed)
  }

  lemma ParseNameOfFixedPoint(t: string)
    requires Trim(t) == t && |t| > 0
    ensures ParseName(Some(t)) == CutName(t)
  {
  }

  /** A name that was not cut comes back unchanged from a second pass. */
  lemma ParseNameIdempotent(input: Option<string>)
    requires input.Some? && |Trim(input.value)| <= MaxNameLength
    ensures ParseName(ParseName(input)) == ParseName(input)
  {
    var t := Trim(input.value);
    if |t| > 0 {
      ParseNameUncut(input, t);
      ParseNameOfTrimmed(t);
    } else {
      TrimEmptyIff(input.value);
    }
  }

  lemma ParseNameUncut(input: Option<string>, t: string)
    requires input.Some? && t == Trim(input.value) && 0 < |t| <= MaxNameLength
    ensures ParseName(input) == Some(t)
  {
    TrimEmptyIff(input.value);
  }

  /** A trimmed, non-empty name of at most 80 characters is its own parse. */
  lemma ParseNameOfTrimmed(t: string)
    requires IsTrimmed(t) && t != [] && |t| <= MaxNameLength
    ensures ParseName(Some(t)) == Some(t)
  {
    TrimOfTrimmed(t);
    ParseNameOfFixedPoint(t);
  }

  /**
   * Cutting at 80 characters happens after trimming, so a stored name can end in white space,
   * and a second pass then shortens it further.
   */
  lemma CutNameMayEndInSpace(t: string)
    requires IsTrimmed(t) && |t| > MaxNameLength && IsJsWhiteSpace(t[MaxNameLength - 1])
    ensures ParseName(Some(t)) == Some(t[..MaxNameLength])
    ensures ParseName(ParseName(Some(t))) != ParseName(Some(t))
  {
    var cut := t[..MaxNameLength];
    ParseNameOfLongTrimmed(t, cut);
    assert cut[MaxNameLength - 1] == t[MaxNameLength - 1];
    CutNameReparsed(cut);
  }

  /** A trimmed name longer than 80 characters is cut to its first 80. */
  lemma ParseNameOfLongTrimmed(t: string, cut: string)
    requires IsTrimmed(t) && |t| > MaxNameLength && cut == t[..MaxNameLength]
    ensures ParseName(Some(t)) == Some(cut)
  {
    TrimOfTrimmed(t);
    ParseNameOfFixedPoint(t);
  }

  /** A name ending in white space is not its own parse. */
  lemma CutNameReparsed(cut: string)
    requires |cut| == MaxNameLength && IsJsWhiteSpace(cut[MaxNameLength - 1])
    ensures ParseName(Some(cut)) != Some(cut)
  {
    assert !IsTrimmed(cut);
  }

  lemma TrimLengthAtMost(s: string)
    ensures |Trim(s)| <= |s|
  {
    var i :| IsTrimOf(s, Trim(s), i);
  }

  // ---------------------------------------------------------------------------
  // Base URL
  // ---------------------------------------------------------------------------

  /** `s.replace(/\/+$/, "")`. */
  function StripSlashes(s: string): (r: string)
    ensures IsPrefix(r, s)
    ensures forall k :: |r| <= k < |s| ==> s[k] == '/'
    ensures r == [] || r[|r| - 1] != '/'
  {
    StripTrailing(s, '/')
  }

  /** Stripping the slashes twice is stripping them once. */
  lemma StripSlashesIdempotent(s: string)
    ensures StripSlashes(StripSlashes(s)) == StripSlashes(s)
  {
    StripTrailingIdempotent(s, '/');
  }

  /** A string that does not end in '/' is left alone. */
  lemma StripSlashesKeeps(s: string)
    requires s == [] || s[|s| - 1] != '/'
    ensures StripSlashes(s) == s
  {
  }

  /** `process.env.BASE_URL || ""`. */
  function EnvText(env: Option<string>): string {
    if env.Some? then env.value else ""
  }

  /** ENV_BASE_URL: `(process.env.BASE_URL || "").trim()` without its trailing slashes. */
  function EnvBaseUrl(env: Option<string>): (r: string)
    ensures r == [] || r[|r| - 1] != '/'
    ensures IsPrefix(r, Trim(EnvText(env)))
    ensures forall k :: |r| <= k < |Trim(EnvText(env))| ==> Trim(EnvText(env))[k] == '/'
  {
    StripSlashes(Trim(EnvText(env)))
  }

  /** `req.headers["x-forwarded-proto"] || req.protocol || "http"`. */
  function Proto(forwardedProto: Option<string>, protocol: Option<string>): (p: string)
    ensures p != ""
    ensures forwardedProto.Some? && forwardedProto.value != "" ==> p == forwardedProto.value
    ensures (forwardedProto.None? || forwardedProto.value == "") && protocol.Some? && protocol.value != "" ==>
      p == protocol.value
    ensures (forwardedProto.None? || forwardedProto.value == "") && (protocol.None? || protocol.value == "") ==>
      p == "http"
  {
    if forwardedProto.Some? && forwardedProto.value != "" then forwardedProto.value
    else if protocol.Some? && protocol.value != "" then protocol.value
    else "http"
  }

  /** `${host}` of `req.get("host")`: a missing Host header prints as "undefined". */
  function HostText(host: Option<string>): string {
    if host.Some? then host.value else "undefined"
  }

  /** The origin the request was addressed to, before the slashes are stripped. */
  function RequestOrigin(forwardedProto: Option<string>, protocol: Option<string>, host: Option<string>): string {
    Proto(forwardedProto, protocol) + "://" + HostText(host)
  }

  /**
   * resolveBaseUrl. `env` is the BASE_URL environment variable the process started with; the
   * other three are the request's x-forwarded-proto header, Express's req.protocol and the Host
   * header.
   */
  function ResolveBaseUrl(env: Option<string>, forwardedProto: Option<string>, protocol: Option<string>, host: Option<string>): (r: string)
    ensures EnvBaseUrl(env) != "" ==> r == EnvBaseUrl(env)
    ensures EnvBaseUrl(env) == "" ==>
      var o := RequestOrigin(forwardedProto, protocol, host);
      IsPrefix(r, o) && forall k :: |r| <= k < |o| ==> o[k] == '/'
    ensures r == [] || r[|r| - 1] != '/'
  {
    var base := EnvBaseUrl(env);
    if base != "" then base
    else StripSlashes(RequestOrigin(forwardedProto, protocol, host))
  }

  /** Whichever branch it takes, the base URL is already normalised. */
  lemma BaseUrlNormalised(env: Option<string>, forwardedProto: Option<string>, protocol: Option<string>, host: Option<string>)
    ensures StripSlashes(ResolveBaseUrl(env, forwardedProto, protocol, host)) == ResolveBaseUrl(env, forwardedProto, protocol, host)
  {
    StripSlashesKeeps(ResolveBaseUrl(env, forwardedProto, protocol, host));
  }

  /** Without BASE_URL and with a Host header that does not end in '/', the base URL is exactly proto://host. */
  lemma BaseUrlFromRequest(env: Option<string>, forwardedProto: Option<string>, protocol: Option<string>, host: string)
    requires EnvBaseUrl(env) == "" && host != "" && host[|host| - 1] != '/'
    ensures ResolveBaseUrl(env, forwardedProto, protocol, Some(host)) == Proto(forwardedProto, protocol) + "://" + host
  {
    var o := RequestOrigin(forwardedProto, protocol, Some(host));
    assert o[|o| - 1] == host[|host| - 1];
    StripSlashesKeeps(o);
  }

  /** An empty Host header leaves "proto://", which loses both of its slashes. */
  lemma EmptyHostLosesSlashes(env: Option<string>, forwardedProto: Option<string>, protocol: Option<string>)
    requires EnvBaseUrl(env) == ""
    ensures ResolveBaseUrl(env, forwardedProto, protocol, Some("")) == Proto(forwardedProto, protocol) + ":"
  {
    var p := Proto(forwardedProto, protocol);
    assert HostText(Some("")) == "";
    OriginWithoutHost(p, RequestOrigin(forwardedProto, protocol, Some("")));
  }

  lemma OriginWithoutHost(p: string, o: string)
    requires o == p + "://" + ""
    ensures StripSlashes(o) == p + ":"
  {
    var a := p + ":";
    var b := a + "/";
    assert o == b + "/";
    StripOneSlash(b, o);
    StripOneSlash(a, b);
    StripSlashesKeeps(a);
  }

  lemma StripOneSlash(x: string, y: string)
    requires y == x + "/"
    ensures StripSlashes(y) == StripSlashes(x)
  {
    assert y[..|y| - 1] == x;
  }
}
