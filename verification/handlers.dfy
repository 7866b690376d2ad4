/** The request handlers of `shortener_app/main.py`, reduced to what they do to the store
    and what they answer: a success value, or an HTTP error with status and detail. */
module Handlers {
  import opened Wrappers
  import opened Records
  import opened Db

  const BadRequest: int := 400
  const NotFound: int := 404

  /** The `HTTPException` a handler raises. */
  datatype HttpError = HttpError(statusCode: int, detail: string)

  /** The body of a successful create: the record plus the two link fields the handler sets. */
  datatype UrlInfo = UrlInfo(url: string, adminUrl: string, record: Record)

  /** A redirect instruction to `location`. */
  datatype Redirect = Redirect(location: string)

  /** A client error carrying the caller's message unchanged. */
  function RaiseBadRequest(message: string): (e: HttpError)
    ensures e.statusCode == 400 && e.detail == message
  {
    HttpError(BadRequest, message)
  }

  const NotFoundPrefix: string := "URL '"
  const NotFoundSuffix: string := "' doesn't exist"

  /** The 404 names the URL the client requested: the detail is the request URL wrapped in a
      fixed prefix and suffix, so the URL can be read back from it. */
  function RaiseNotFound(requestUrl: string): (e: HttpError)
    ensures e.statusCode == 404
    ensures |e.detail| == |NotFoundPrefix| + |requestUrl| + |NotFoundSuffix|
    ensures e.detail[..|NotFoundPrefix|] == NotFoundPrefix
    ensures e.detail[|e.detail| - |NotFoundSuffix|..] == NotFoundSuffix
    ensures e.detail[|NotFoundPrefix|..|e.detail| - |NotFoundSuffix|] == requestUrl
  {
    HttpError(NotFound, NotFoundPrefix + requestUrl + NotFoundSuffix)
  }

  /** Two 404s are equal exactly when they name the same request URL. */
  lemma NotFoundNamesRequest(u: string, v: string)
    ensures RaiseNotFound(u) == RaiseNotFound(v) <==> u == v
  {
    if RaiseNotFound(u) == RaiseNotFound(v) {
      var d := RaiseNotFound(u).detail;
      assert u == d[|NotFoundPrefix|..|d| - |NotFoundSuffix|] == v;
    }
  }

  /** `create_url`. `isUrl` stands for `validators.url`; the other parameters are what the
      insert draws from its environment. */
  function CreateUrl(s: Store, targetUrl: string, isUrl: string -> bool,
                     candidates: seq<string>, secret: string, id: int)
    : (r: Step<Result<UrlInfo, HttpError>>)
    requires isUrl(targetUrl) ==> CanInsert(s, candidates, secret, id)
    ensures !isUrl(targetUrl) ==> r.store == s && r.out == Failure(HttpError(400, "Invalid URL"))
    ensures isUrl(targetUrl) ==> && r.out.Success?
                                 && r.out.value.url == r.out.value.record.key
                                 && r.out.value.adminUrl == r.out.value.record.secretKey == secret
                                 && r.out.value.record.targetUrl == targetUrl
                                 && r.out.value.record.isActive && r.out.value.record.clicks == 0
                                 && !HasActiveKey(s, r.out.value.record.key)
                                 && r.store == s + [r.out.value.record]
  {
    if !isUrl(targetUrl) then
      Step(s, Failure(RaiseBadRequest("Invalid URL")))
    else
      var ins := InsertNewUrlRecord(s, targetUrl, candidates, secret, id);
      assert ins.store == ins.store[..|s|] + [ins.out];
      Step(ins.store, Success(UrlInfo(ins.out.key, ins.out.secretKey, ins.out)))
  }

  /** `forward_url_key`: count the visit and redirect, or 404. A missing key and a key held only
      by inactive records get the same answer. */
  function ForwardUrlKey(s: Store, urlKey: string, requestUrl: string)
    : (r: Step<Result<Redirect, HttpError>>)
    ensures r.out.Success? <==> HasActiveKey(s, urlKey)
    ensures r.out.Failure? ==> r.store == s
                               && r.out.error == HttpError(404, "URL '" + requestUrl + "' doesn't exist")
    ensures r.out.Success? ==> exists i :: && IsFirstMatch(s, ActiveKeyIs(urlKey), i)
                                           && r.out.value.location == s[i].targetUrl
                                           && SameExcept(s, r.store, i)
                                           && r.store[i] == s[i].(clicks := s[i].clicks + 1)
  {
    var visit := UpdateVisitCount(s, urlKey);
    match visit.out
    case Some(rec) => Step(visit.store, Success(Redirect(rec.targetUrl)))
    case None => Step(visit.store, Failure(RaiseNotFound(requestUrl)))
  }

  /** `get_url_admin`: read-only; the record with the secret, or 404. */
  function GetUrlAdmin(s: Store, secret: string, requestUrl: string): (r: Result<Record, HttpError>)
    ensures r.Success? <==> HasSecret(s, secret)
    ensures r.Success? ==> r.value.secretKey == secret
    ensures r.Success? ==> exists i :: IsFirstMatch(s, SecretIs(secret), i) && s[i] == r.value
    ensures r.Failure? ==> r.error == HttpError(404, "URL '" + requestUrl + "' doesn't exist")
  {
    match GetUrlBySecretKey(s, secret)
    case Some(rec) => Success(rec)
    case None => Failure(RaiseNotFound(requestUrl))
  }

  function ToggleMessage(nowActive: bool): string {
    "URL successfully " + (if nowActive then "activated" else "deactivated")
  }

  /** `deactivate_url`, which in fact toggles: flip `is_active` of the record found by secret. */
  function DeactivateUrl(s: Store, secret: string, requestUrl: string)
    : (r: Step<Result<string, HttpError>>)
    ensures r.out.Success? <==> HasSecret(s, secret)
    ensures r.out.Failure? ==> r.store == s
                               && r.out.error == HttpError(404, "URL '" + requestUrl + "' doesn't exist")
    ensures r.out.Success? ==> exists i :: && IsFirstMatch(s, SecretIs(secret), i)
                                           && SameExcept(s, r.store, i)
                                           && r.store[i] == s[i].(isActive := !s[i].isActive)
                                           && (r.out.value == "URL successfully activated" <==> r.store[i].isActive)
                                           && (r.out.value == "URL successfully deactivated" <==> !r.store[i].isActive)
  {
    match First(s, SecretIs(secret))
    case None => Step(s, Failure(RaiseNotFound(requestUrl)))
    case Some(i) =>
      var toggled := s[i].(isActive := !s[i].isActive);
      Step(s[i := toggled], Success(ToggleMessage(toggled.isActive)))
  }

  /** `delete_url`: remove the record found by secret; the others keep their order. */
  function DeleteUrl(s: Store, secret: string, requestUrl: string)
    : (r: Step<Result<string, HttpError>>)
    ensures r.out.Success? <==> HasSecret(s, secret)
    ensures r.out.Failure? ==> r.store == s
                               && r.out.error == HttpError(404, "URL '" + requestUrl + "' doesn't exist")
    ensures r.out.Success? ==> r.out.value == "URL successfully deleted"
                               && exists i :: IsFirstMatch(s, SecretIs(secret), i) && RemovedAt(s, r.store, i)
  {
    match First(s, SecretIs(secret))
    case None => Step(s, Failure(RaiseNotFound(requestUrl)))
    case Some(i) => Step(s[..i] + s[i + 1..], Success("URL successfully deleted"))
  }
}
