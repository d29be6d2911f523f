/** The embedding of the analytics dashboards (backend/services/dashboard_service.py):
    the claims of the short-lived embed token and the URL of the embedded
    dashboard that carries the token in its fragment. */
module DashboardService {
  import opened Wrappers
  import opened Chars

  // ---------------------------------------------------------------------------
  // The token's claims

  /** A signed parameter: one string or a list of strings. */
  datatype ParamValue = Text(text: string) | Texts(texts: seq<string>)

  type Params = map<string, ParamValue>

  /** A claim value of the payload dictionary. */
  datatype Claim = Str(s: string) | Int(n: int) | Signed(params: Params)

  type Payload = map<string, Claim>

  /** The constant marker the dashboard service expects in every embed token. */
  const EmbedServiceMark: string := "YC_DATALENS_EMBEDDING_SERVICE_MARK"

  /** `if params:` — `None` and the empty dictionary are both falsy. */
  predicate Given(params: Option<Params>) {
    params.Some? && params.value != map[]
  }

  /** What the embed token promises: the embed id, the marker, the issue time,
      the expiry `ttl` seconds later, and the parameters exactly when given. */
  predicate IsEmbedPayload(payload: Payload, embedId: string, ttlSeconds: int,
                           params: Option<Params>, now: int) {
    && payload.Keys == {"embedId", "dlEmbedService", "iat", "exp"} + (if Given(params) then {"params"} else {})
    && payload["embedId"] == Str(embedId)
    && payload["dlEmbedService"] == Str(EmbedServiceMark)
    && payload["iat"] == Int(now)
    && payload["exp"].Int? && payload["exp"].n == payload["iat"].n + ttlSeconds
    && (Given(params) ==> payload["params"] == Signed(params.value))
  }

  /** The payload `sign_jwt_ps256` builds, at the integer second `now` of the
      clock: the four fixed claims, then `params` put in when given. */
  method EmbedPayload(embedId: string, ttlSeconds: int, params: Option<Params>, now: int)
    returns (payload: Payload)
    ensures IsEmbedPayload(payload, embedId, ttlSeconds, params, now)
  {
    payload := map[
      "embedId" := Str(embedId),
      "dlEmbedService" := Str(EmbedServiceMark),
      "iat" := Int(now),
      "exp" := Int(now + ttlSeconds)
    ];
    if params.Some? && params.value != map[] {
      payload := payload["params" := Signed(params.value)];
    }
  }

  /** The claims are determined by the arguments: two payloads that both keep
      the promise are the same dictionary. */
  lemma EmbedPayloadUnique(p: Payload, q: Payload, embedId: string, ttlSeconds: int,
                           params: Option<Params>, now: int)
    requires IsEmbedPayload(p, embedId, ttlSeconds, params, now)
    requires IsEmbedPayload(q, embedId, ttlSeconds, params, now)
    ensures p == q
  {
    assert p.Keys == q.Keys;
    forall k | k in p.Keys
      ensures p[k] == q[k]
    {
    }
  }

  /** `sign_jwt_ps256`: the payload signed with the private key by
      `jwt.encode(..., algorithm='PS256')`, which is a parameter here. */
  method SignJwtPs256(privateKeyPem: string, embedId: string, ttlSeconds: int,
                      params: Option<Params>, now: int,
                      encode: (Payload, string) -> string)
    returns (token: string)
    ensures exists payload :: IsEmbedPayload(payload, embedId, ttlSeconds, params, now)
                              && token == encode(payload, privateKeyPem)
  {
    var payload := EmbedPayload(embedId, ttlSeconds, params, now);
    token := encode(payload, privateKeyPem);
  }

  // ---------------------------------------------------------------------------
  // The embed URL

  predicate IsSlash(c: char) { c == '/' }

  const EmbedPath: string := "/embeds/dash#dl_embed_token="

  /** `build_embed_url`: `base_url.rstrip('/')`, the embed path, the token. */
  function BuildEmbedUrl(baseUrl: string, token: string): string {
    StripRight(baseUrl, IsSlash) + EmbedPath + token
  }

  /** `b` is `s` without its trailing slashes. */
  predicate WithoutTrailingSlashes(s: string, b: string) {
    && |b| <= |s| && s[..|b|] == b
    && (forall q :: |b| <= q < |s| ==> s[q] == '/')
    && (b != [] ==> b[|b| - 1] != '/')
  }

  /** The URL is the base without its trailing slashes, the embed path and
      the token. */
  lemma EmbedUrlShape(baseUrl: string, b: string, token: string)
    requires WithoutTrailingSlashes(baseUrl, b)
    ensures BuildEmbedUrl(baseUrl, token) == b + EmbedPath + token
  {
    SkipBackExact(baseUrl, IsSlash, |b|, |baseUrl|);
  }

  /** Extra trailing slashes on the base never change the URL. */
  lemma ExtraSlashesIgnored(baseUrl: string, n: nat, token: string)
    ensures BuildEmbedUrl(baseUrl + Slashes(n), token) == BuildEmbedUrl(baseUrl, token)
  {
    var b := StripRight(baseUrl, IsSlash);
    var s := baseUrl + Slashes(n);
    SkipBackSpan(baseUrl, IsSlash, |baseUrl|);
    assert WithoutTrailingSlashes(baseUrl, b);
    assert s[..|b|] == b;
    assert WithoutTrailingSlashes(s, b);
    EmbedUrlShape(baseUrl, b, token);
    EmbedUrlShape(s, b, token);
  }
}
