/** The slice of an Express request and response the voting routes touch. */
module Http {
  import opened Wrappers

  /** A finished response: the status code and the body sent with it. */
  datatype Response = Response(status: nat, body: string)

  /** `res.sendStatus(code)` for the two codes the middleware sends: the status with its reason phrase as the body. */
  function SendStatus(code: nat): Response
    requires code == 401 || code == 403
  {
    Response(code, if code == 401 then "Unauthorized" else "Forbidden")
  }

  /**
   * An incoming request: its `Authorization` header, the `team` field of its
   * parsed body (None when absent or not a string), and the `uid` slot the
   * authentication middleware fills in.
   */
  class Request {
    const authorization: Option<string>
    const team: Option<string>
    var uid: Option<string>

    constructor (authorization: Option<string>, team: Option<string>)
      ensures this.authorization == authorization && this.team == team
      ensures uid == None
    {
      this.authorization := authorization;
      this.team := team;
      uid := None;
    }
  }
}
