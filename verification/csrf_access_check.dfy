/**
 The CSRF route access check: build the route's subject string, ask the token
 validator whether the request's `token` query value is valid for it, and turn
 the answer into an Allowed or Forbidden access result that must never be
 cached.

 The route, request and route match are reduced to the three values the check
 reads from them: the route's path template, the request's query parameters,
 and the route match's raw parameters. The token generator is passed in as its
 `validate` operation.
 */
module CsrfAccess {
  import opened PhpStrings
  import opened Subject

  datatype Option<T> = None | Some(value: T)

  /** Drupal's `Cache::PERMANENT`: the max-age a fresh access result starts with. */
  const PermanentMaxAge: int := -1

  /** The query parameter that carries the token. */
  const TokenKey: string := "token"

  datatype Decision = Allowed | Forbidden

  /** An access result, reduced to its decision and its cache max-age in seconds. */
  datatype AccessResult = AccessResult(decision: Decision, maxAge: int)

  /** `AccessResult::allowed()`: an allowed result that is cacheable until told otherwise. */
  function AllowedResult(): (r: AccessResult)
    ensures r.decision == Allowed && r.maxAge == PermanentMaxAge
  {
    AccessResult(Allowed, PermanentMaxAge)
  }

  /** `AccessResult::forbidden()`: a forbidden result that is cacheable until told otherwise. */
  function ForbiddenResult(): (r: AccessResult)
    ensures r.decision == Forbidden && r.maxAge == PermanentMaxAge
  {
    AccessResult(Forbidden, PermanentMaxAge)
  }

  /** `setCacheMaxAge`: overrides the max-age, keeps the decision. */
  function SetCacheMaxAge(result: AccessResult, maxAge: int): (r: AccessResult)
    ensures r.decision == result.decision && r.maxAge == maxAge
  {
    result.(maxAge := maxAge)
  }

  datatype Route = Route(path: string)
  datatype Request = Request(query: map<string, string>)
  datatype RouteMatch = RouteMatch(rawParameters: Parameters)

  /** The token generator's `validate($token, $value)`; `None` is PHP's null. */
  type Validator = (Option<string>, string) -> bool

  /** `$request->query->get($key)`: the value if present, null otherwise. */
  function QueryGet(query: map<string, string>, key: string): (v: Option<string>)
    ensures v.Some? <==> key in query
    ensures v.Some? ==> v.value == query[key]
  {
    if key in query then Some(query[key]) else None
  }

  /** The token the request presents: its `token` query value, or null when there is none. */
  function Token(request: Request): (t: Option<string>)
    ensures t.Some? <==> TokenKey in request.query
    ensures t.Some? ==> t.value == request.query[TokenKey]
  {
    QueryGet(request.query, TokenKey)
  }

  /** The subject a route match binds its token to. */
  function RouteSubject(route: Route, routeMatch: RouteMatch): (subject: string) {
    BuildSubject(route.path, routeMatch.rawParameters)
  }

  /**
   `CsrfAccessCheck::access`: Allowed exactly when the validator accepts the
   request's token for the built subject, Forbidden otherwise, and never
   cacheable either way.
   */
  function Access(validate: Validator, route: Route, request: Request, routeMatch: RouteMatch): (r: AccessResult)
    ensures r.maxAge == 0
    ensures r.decision == Allowed <==> validate(Token(request), RouteSubject(route, routeMatch))
    ensures r.decision == Forbidden <==> !validate(Token(request), RouteSubject(route, routeMatch))
  {
    var path := RouteSubject(route, routeMatch);
    var result := if validate(Token(request), path) then AllowedResult() else ForbiddenResult();
    SetCacheMaxAge(result, 0)
  }

  /**
   The `foreach` of the check: replace the parameters one at a time, in order,
   in a single mutable path.
   */
  method ReplaceParameters(path0: string, parameters: Parameters) returns (path: string)
    ensures path == Substitute(path0, parameters)
  {
    path := path0;
    var i := 0;
    while i < |parameters|
      invariant 0 <= i <= |parameters|
      invariant path == Substitute(path0, parameters[..i])
    {
      var (param, value) := parameters[i];
      SubstituteSnoc(path0, parameters[..i], param, value);
      assert parameters[..i + 1] == parameters[..i] + [(param, value)];
      path := StrReplace(Placeholder(param), value, path);
      i := i + 1;
    }
    assert parameters[..i] == parameters;
  }

  /**
   The check statement by statement: trim the path, replace the parameters,
   validate, then stamp max-age 0 on the result.
   */
  method CheckAccess(validate: Validator, route: Route, request: Request, routeMatch: RouteMatch)
    returns (result: AccessResult)
    ensures result.maxAge == 0
    ensures result.decision == Allowed <==> validate(Token(request), RouteSubject(route, routeMatch))
    ensures result == Access(validate, route, request, routeMatch)
  {
    var parameters := routeMatch.rawParameters;
    var path := LTrim(route.path, '/');
    path := ReplaceParameters(path, parameters);
    if validate(QueryGet(request.query, TokenKey), path) {
      result := AllowedResult();
    } else {
      result := ForbiddenResult();
    }
    result := SetCacheMaxAge(result, 0);
  }

  /**
   The decision depends on the validator only through its answer for the
   request's token and the built subject: two validators that agree there give
   the same result, whatever they do elsewhere.
   */
  lemma AccessDeterminedByValidatorAnswer(v1: Validator, v2: Validator, route: Route, request: Request, routeMatch: RouteMatch)
    requires v1(Token(request), RouteSubject(route, routeMatch)) == v2(Token(request), RouteSubject(route, routeMatch))
    ensures Access(v1, route, request, routeMatch) == Access(v2, route, request, routeMatch)
  {
  }

  /**
   An absent token is passed to the validator as null, with no special case:
   the decision for a request without `token` is the validator's answer for
   `None`, so it is Forbidden only when the validator rejects `None`.
   */
  lemma AbsentTokenLeftToValidator(validate: Validator, route: Route, request: Request, routeMatch: RouteMatch)
    requires TokenKey !in request.query
    ensures Access(validate, route, request, routeMatch).decision == Allowed
            <==> validate(None, RouteSubject(route, routeMatch))
  {
  }

  /**
   Path binding: when the validator accepts a token for at most one subject,
   the token opens no route whose subject differs from that one.
   */
  lemma PathBound(validate: Validator, subject: string, route: Route, request: Request, routeMatch: RouteMatch)
    requires forall s :: validate(Token(request), s) ==> s == subject
    requires RouteSubject(route, routeMatch) != subject
    ensures Access(validate, route, request, routeMatch) == AccessResult(Forbidden, 0)
  {
  }

  /**
   A token issued for `node/<id>/edit` opens `/node/{id}/edit` matched with
   that id, and does not open `/node/{id}/delete` matched with the same id.
   */
  lemma EditTokenExample(token: string, id: string)
    ensures var validate := (t: Option<string>, s: string) => t == Some(token) && s == "node/" + id + "/edit";
            var request := Request(map[TokenKey := token]);
            var routeMatch := RouteMatch([("id", id)]);
            && Access(validate, Route("/node/{id}/edit"), request, routeMatch) == AccessResult(Allowed, 0)
            && Access(validate, Route("/node/{id}/delete"), request, routeMatch) == AccessResult(Forbidden, 0)
  {
    BuildSubjectOnePlaceholder("node/", "/edit", "id", id);
    BuildSubjectOnePlaceholder("node/", "/delete", "id", id);
    NodeTemplates();
    var edit, delete := "node/" + id + "/edit", "node/" + id + "/delete";
    assert delete != edit by { assert |delete| != |edit|; }
  }

  /** The two node route templates, split around their `{id}` placeholder. */
  lemma NodeTemplates()
    ensures "/node/{id}/edit" == "/" + "node/" + Placeholder("id") + "/edit"
    ensures "/node/{id}/delete" == "/" + "node/" + Placeholder("id") + "/delete"
  {
  }
}
