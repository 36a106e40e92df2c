/**
 * The `authenticateJWT` middleware guarding POST /: no header gives 401, a
 * token the identity verifier rejects gives 403, an accepted token stores
 * the user id on the request and passes control on.
 */
module Auth {
  import opened Wrappers
  import opened Strings
  import opened Http

  /**
   * The ID-token verifier (Firebase `verifyIdToken`), a foreign call: given
   * the token (None for JavaScript's `undefined`) it yields the user id of
   * the decoded token, or None when the promise rejects.
   */
  type Verifier = Option<string> -> Option<string>

  datatype Gate = Unauthorized | Forbidden | Admitted(uid: string)

  /** `authHeader.split(' ')[1]`: the second space-separated segment, None when there is none. */
  function BearerToken(header: string): (token: Option<string>)
    ensures token.Some? ==> ' ' !in token.value
  {
    var parts := Split(header, ' ');
    if |parts| > 1 then Some(parts[1]) else None
  }

  /** The middleware's decision; a missing or empty header is falsy in JavaScript. */
  function Decide(header: Option<string>, verify: Verifier): (g: Gate)
    ensures g.Admitted? ==> header.Some? && verify(BearerToken(header.value)) == Some(g.uid)
    ensures g == Forbidden ==> header.Some? && header.value != "" && verify(BearerToken(header.value)) == None
  {
    if header == None || header == Some("") then Unauthorized
    else
      match verify(BearerToken(header.value))
      case None => Forbidden
      case Some(uid) => Admitted(uid)
  }

  /** 401 exactly when the header is missing or empty. */
  lemma DecideUnauthorized(header: Option<string>, verify: Verifier)
    ensures Decide(header, verify) == Unauthorized <==> header == None || header == Some("")
  {
  }

  /**
   * With a non-empty header the verifier alone decides, and it is asked
   * about the header's second segment: 403 when it rejects, admission with
   * the user id it returns otherwise.
   */
  lemma DecideAsksVerifier(header: string, verify: Verifier)
    requires header != ""
    ensures Decide(Some(header), verify) == Forbidden <==> verify(BearerToken(header)) == None
    ensures forall uid :: Decide(Some(header), verify) == Admitted(uid) <==> verify(BearerToken(header)) == Some(uid)
  {
  }

  /** For a header of the form "<scheme> <token>", the verifier is handed exactly the token. */
  lemma BearerTokenOfScheme(scheme: string, token: string)
    requires ' ' !in scheme && ' ' !in token
    ensures BearerToken(scheme + " " + token) == Some(token)
  {
    SplitAtFirst(scheme, ' ', token);
    SplitNoSeparator(token, ' ');
  }

  /**
   * For any header with at least two spaces, the token is whatever lies
   * between the first and the second space; the rest is ignored.
   */
  lemma BearerTokenSecondSegment(scheme: string, token: string, rest: string)
    requires ' ' !in scheme && ' ' !in token
    ensures BearerToken(scheme + " " + token + " " + rest) == Some(token)
  {
    SplitAtFirst(scheme, ' ', token + " " + rest);
    SplitAtFirst(token, ' ', rest);
    assert scheme + " " + token + " " + rest == scheme + [' '] + (token + [' '] + rest);
  }

  /** A header without a space has no second segment: the verifier is handed `undefined`. */
  lemma BearerTokenWithoutSpace(header: string)
    requires ' ' !in header
    ensures BearerToken(header) == None
  {
    SplitNoSeparator(header, ' ');
  }

  /**
   * The middleware itself. It either sends a response (`sent`) and stops,
   * or records the verified user id on the request and calls `next()`
   * (`sent == None`).
   */
  method Authenticate(req: Request, verify: Verifier) returns (sent: Option<Response>)
    modifies req
    ensures match Decide(req.authorization, verify)
      case Unauthorized => sent == Some(Response(401, "Unauthorized")) && req.uid == old(req.uid)
      case Forbidden => sent == Some(Response(403, "Forbidden")) && req.uid == old(req.uid)
      case Admitted(uid) => sent == None && req.uid == Some(uid)
  {
    var authHeader := req.authorization;
    if authHeader.Some? && authHeader.value != "" {
      var token := BearerToken(authHeader.value);
      var decodedToken := verify(token);
      if decodedToken.Some? {
        req.uid := decodedToken;
        sent := None;
      } else {
        sent := Some(SendStatus(403));
      }
    } else {
      sent := Some(SendStatus(401));
    }
  }
}
