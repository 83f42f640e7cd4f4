/**
 * `JWTToSessionMiddleware` (`attendance_system/middleware.py`): on admin pages
 * it copies the front end's JWT into the Django session, from the bearer header
 * or else from the `teacher_token` cookie, and then hands the request on.
 */
module Middleware {
  import opened Wrappers
  import opened Text

  /**
   * The parts of a request the middleware reads. A request without an
   * Authorization header carries the empty string, as `META.get(..., '')` gives.
   */
  datatype Request = Request(path: string, authorization: string, cookies: map<string, string>)

  /** Whatever the rest of the stack answers; the middleware never looks inside. */
  datatype Response = Response(status: nat, body: string)

  const SessionKey: string := "jwt_token"
  const CookieName: string := "teacher_token"

  /** The request's session dictionary. */
  class Session {
    var data: map<string, string>

    constructor(initial: map<string, string>)
      ensures data == initial
    {
      data := initial;
    }
  }

  /** The token the middleware would store for this request, if any. */
  function TokenFor(request: Request): (token: Option<string>)
    ensures token.Some? <==> StartsWith(request.path, "/admin")
                             && (StartsWith(request.authorization, "Bearer ") || CookieName in request.cookies)
  {
    if !StartsWith(request.path, "/admin") then None
    else if StartsWith(request.authorization, "Bearer ") then
      var fields := Split(request.authorization, ' ');
      assert |fields| >= 2 by { BearerSplit(request.authorization); }
      Some(fields[1])
    else if CookieName in request.cookies then Some(request.cookies[CookieName])
    else None
  }

  /** After "Bearer " there is always a second field: the text up to the next space. */
  lemma BearerSplit(header: string)
    requires StartsWith(header, "Bearer ")
    ensures |Split(header, ' ')| >= 2 && Split(header, ' ')[1] == TakeUntilSpace(header[7..])
  {
    assert header == "Bearer" + " " + header[7..];
    SplitAfterWord("Bearer", header[7..]);
    SplitFirstField(header[7..]);
  }

  /**
   * A bearer header wins over the cookie: the stored token is what follows
   * "Bearer " up to the next space, so it never contains a space.
   */
  lemma BearerTokenWins(request: Request)
    requires StartsWith(request.path, "/admin") && StartsWith(request.authorization, "Bearer ")
    ensures TokenFor(request) == Some(TakeUntilSpace(request.authorization[7..]))
    ensures forall i :: 0 <= i < |TokenFor(request).value| ==> TokenFor(request).value[i] != ' '
  {
    BearerSplit(request.authorization);
  }

  /** Without a bearer header the cookie's value is stored as it is; other paths store nothing. */
  lemma CookieFallback(request: Request)
    ensures !StartsWith(request.path, "/admin") ==> TokenFor(request) == None
    ensures (StartsWith(request.path, "/admin") && !StartsWith(request.authorization, "Bearer ")
             && CookieName in request.cookies) ==> TokenFor(request) == Some(request.cookies[CookieName])
  {
  }

  class JwtToSessionMiddleware {
    const getResponse: Request -> Response

    constructor(getResponse: Request -> Response)
      ensures this.getResponse == getResponse
    {
      this.getResponse := getResponse;
    }

    /**
     * `__call__`: on admin paths, store the token in the session (the bearer
     * header first, then the cookie); the response is the next handler's, as is.
     */
    method Call(request: Request, session: Session) returns (response: Response)
      modifies session
      ensures TokenFor(request).Some? ==> session.data == old(session.data)[SessionKey := TokenFor(request).value]
      ensures TokenFor(request).None? ==> session.data == old(session.data)
      ensures response == getResponse(request)
    {
      if StartsWith(request.path, "/admin") {
        var authHeader := request.authorization;
        if StartsWith(authHeader, "Bearer ") {
          BearerSplit(authHeader);
          var token := Split(authHeader, ' ')[1];
          session.data := session.data[SessionKey := token];
        } else if CookieName in request.cookies {
          var token := request.cookies[CookieName];
          session.data := session.data[SessionKey := token];
        }
      }
      response := getResponse(request);
    }
  }
}
