/**
 * `AuthController.logout`: the bearer-header check and the extraction of the
 * access token, before the service is called.
 */
module Controller {
  import opened Wrappers
  import opened Requests
  import opened JwtFilter

  /** What the endpoint does with a request: answer 400, or call `logout` with these tokens. */
  datatype LogoutCall =
    | BadRequest
    | CallLogout(accessToken: string, refreshToken: Option<string>)

  /** The `logout` endpoint for an `Authorization` header and an optional body (None when absent). */
  function LogoutEndpoint(header: Option<string>, body: Option<LogoutRequest>): (r: LogoutCall)
    ensures r.BadRequest? <==> header.None? || !StartsWith(header.value, Bearer) || |header.value| <= 7
    ensures r.CallLogout? ==> Bearer + r.accessToken == header.value && r.accessToken != []
    ensures r.CallLogout? && body.None? ==> r.refreshToken.None?
    ensures r.CallLogout? && body.Some? ==> r.refreshToken == body.value.refreshToken
  {
    if header.None? || !StartsWith(header.value, Bearer) || |header.value| <= 7 then BadRequest
    else
      assert header.value == header.value[..7] + header.value[7..];
      CallLogout(header.value[7..], if body.None? then None else body.value.refreshToken)
  }

  /** "Bearer " with nothing after it is refused with 400, as is a header of any other scheme. */
  lemma EmptyBearerRejected(body: Option<LogoutRequest>)
    ensures LogoutEndpoint(Some(Bearer), body) == BadRequest
    ensures LogoutEndpoint(Some("Basic dXNlcg=="), body) == BadRequest
    ensures LogoutEndpoint(None, body) == BadRequest
  {
    assert "Basic dXNlcg=="[..7][1] != Bearer[1];
  }

  /** For a token without spaces the endpoint and the filter extract the same token. */
  lemma EndpointAgreesWithFilter(t: string, body: Option<LogoutRequest>)
    requires t != [] && ' ' !in t
    ensures LogoutEndpoint(Some(Bearer + t), body).CallLogout?
    ensures LogoutEndpoint(Some(Bearer + t), body).accessToken == t == RemoveBearer(Bearer + t)
  {
    BearerTokenExtracted(t);
    var r := LogoutEndpoint(Some(Bearer + t), body);
    assert Bearer + r.accessToken == Bearer + t;
    assert r.accessToken == (Bearer + r.accessToken)[7..];
  }

  /**
   * They differ on a header holding "Bearer " a second time: the endpoint
   * keeps everything after the first seven characters, the filter removes
   * every occurrence.
   */
  lemma EndpointAndFilterDiffer()
    ensures LogoutEndpoint(Some("Bearer aBearer b"), None) == CallLogout("aBearer b", None)
    ensures RemoveBearer("Bearer aBearer b") == "ab"
  {
    var h := "Bearer aBearer b";
    assert StartsWith(h, Bearer) && h[7..] == "aBearer b";
    RemoveBearerInside();
  }
}
