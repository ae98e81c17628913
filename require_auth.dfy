/**
 * backend/middleware/requireAuth.js: the gate in front of every protected
 * route. It reads the `token` cookie, asks the token library to verify it,
 * and either rejects the request with 401 or records the verified user id on
 * the request and hands it to the route handler.
 */
module RequireAuth {
  import opened Wrappers
  import opened Js

  /** The server-assigned identifier of a user (the `users.id` column). */
  type UserId = int

  /**
   * `jwt.verify(token, secret)`: the `userId` claim of a well-formed,
   * correctly signed, unexpired token, or `None` where the library throws.
   * Signature checking and expiry are the library's and are not described.
   */
  type Verifier = (string, string) -> Option<UserId>

  /** The loaded middleware, holding the signing secret it was started with. */
  datatype Gate = Gate(secret: string)

  const MissingSecret := "Missing JWT_SECRET in .env"
  const NotLoggedIn := "Not logged in"
  const InvalidToken := "Invalid or expired token"

  /**
   * Loading the module with `process.env.JWT_SECRET` (a string or absent):
   * without a non-empty secret the load throws, so no gate exists and no
   * protected request can be served.
   */
  function LoadGate(secret: Option<string>): (r: Result<Gate, string>)
    ensures r.Success? <==> secret.Some? && secret.value != ""
    ensures r.Success? ==> r.value.secret == secret.value
    ensures r.Failure? ==> r.error == MissingSecret
  {
    if secret.None? || secret.value == "" then Failure(MissingSecret)
    else Success(Gate(secret.value))
  }

  /** What the gate decides for one request. */
  datatype Decision = Proceed(userId: UserId) | Reject(status: nat, error: string)

  /**
   * `requireAuth`'s decision for the cookie value `token`. A non-string
   * cookie (cookie-parser turns `j:` cookies into objects) makes
   * `jwt.verify` throw, like a bad signature does.
   */
  function Decide(gate: Gate, token: JsValue, verify: Verifier): (d: Decision)
    ensures d.Reject? ==> d.status == 401
    ensures !Truthy(token) ==> d == Reject(401, NotLoggedIn)
    ensures d.Proceed? <==> token.Str? && token.s != "" && verify(token.s, gate.secret).Some?
    ensures d.Proceed? ==> verify(token.s, gate.secret) == Some(d.userId)
    ensures Truthy(token) && d.Reject? ==> d.error == InvalidToken
  {
    if !Truthy(token) then Reject(401, NotLoggedIn)
    else if !token.Str? then Reject(401, InvalidToken)
    else
      match verify(token.s, gate.secret)
      case None => Reject(401, InvalidToken)
      case Some(u) => Proceed(u)
  }

  /**
   * Whatever made verification fail (malformed, tampered, expired, wrong
   * type), the caller sees one and the same answer.
   */
  lemma RejectionIsUniform(gate: Gate, t1: JsValue, t2: JsValue, verify: Verifier)
    requires Truthy(t1) && Truthy(t2)
    requires Decide(gate, t1, verify).Reject? && Decide(gate, t2, verify).Reject?
    ensures Decide(gate, t1, verify) == Decide(gate, t2, verify) == Reject(401, InvalidToken)
  {
  }

  /** The parts of the Express request the gate reads and writes. */
  class Request {
    /** `req.cookies.token`. */
    const token: JsValue
    /** `req.userId`; `None` while unset. */
    var userId: Option<UserId>

    constructor (token: JsValue)
      ensures this.token == token && userId == None
    {
      this.token := token;
      userId := None;
    }
  }

  /** The 401 response the gate sends in place of the handler's. */
  datatype GateReply = GateReply(status: nat, error: string)

  /**
   * `requireAuth(req, res, next)`. `nextCalls` is how many times the route
   * handler is entered. An accepted request enters it once, carrying exactly
   * the verified id; a rejected one never enters it and leaves `req.userId`
   * as it was.
   */
  method Run(gate: Gate, req: Request, verify: Verifier) returns (reply: Option<GateReply>, nextCalls: nat)
    modifies req
    ensures Decide(gate, req.token, verify).Proceed? ==>
      && req.userId == Some(Decide(gate, req.token, verify).userId)
      && nextCalls == 1 && reply == None
    ensures Decide(gate, req.token, verify).Reject? ==>
      && req.userId == old(req.userId)
      && nextCalls == 0
      && reply == Some(GateReply(401, Decide(gate, req.token, verify).error))
  {
    var d := Decide(gate, req.token, verify);
    if d.Reject? {
      return Some(GateReply(d.status, d.error)), 0;
    }
    req.userId := Some(d.userId);
    reply, nextCalls := None, 1;
  }
}
