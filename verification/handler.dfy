/**
 The request handler `fetch` of the webhook receiver.

 A request passes three gates before its body is read as an envelope: the
 method must be POST (405 otherwise), the signature header, the timestamp
 header and the body must all be present and non-empty (401 otherwise), and
 the Ed25519 signature must verify (401 otherwise). A verified Ping is
 answered 204, a verified Event is dispatched to the subtype switch and
 answered 204, and any other envelope type is answered 403.

 The Ed25519 check and the JSON decoder are parameters: `verify` receives the
 decoded public key, the decoded signature and the signed message, and `parse`
 turns the body text into an envelope. The outcome records the one call made
 to `verify`, if any, next to the response and the log records.
 */
module Handler {
  import opened Options
  import Hex
  import opened Events

  /** The parts of an HTTP request the handler reads. A header is None when
      the request does not carry it; the body text is always there, possibly
      empty. */
  datatype Request = Request(
    httpMethod: string,
    signature: Option<string>,
    timestamp: Option<string>,
    body: string)

  /** The configuration the handler reads: the application's public key as
      hex text. */
  datatype Env = Env(publicKey: string)

  /** A response: a status code and a body text, None for a null body. */
  datatype Response = Response(status: int, body: Option<string>)

  /** The arguments of one signature check: public key bytes, signature
      bytes and the signed message. */
  datatype Verification = Verification(publicKey: seq<int>, signature: seq<int>, message: string)

  datatype Outcome = Outcome(response: Response, logs: seq<LogRecord>, verification: Option<Verification>)

  /** The Ed25519 check: public key bytes, signature bytes, message. */
  type Verifier = (seq<int>, seq<int>, string) -> bool

  /** The JSON decoder, applied to the body text. */
  type Parser = string -> Envelope

  const MethodNotAllowed := "Method not allowed."
  const InvalidRequest := "Invalid request."
  const UnexpectedType := "Unexpected application webhook type."

  /** A header is truthy in JavaScript when it is present and not empty. */
  predicate Truthy(header: Option<string>) {
    header.Some? && header.value != ""
  }

  /** The request carries a signature, a timestamp and a body, none empty. */
  predicate Complete(request: Request) {
    Truthy(request.signature) && Truthy(request.timestamp) && request.body != ""
  }

  /** The check a complete request is put to: the configured key and the
      signature header, both hex-decoded, over the timestamp followed by the
      body with nothing between them. */
  function VerificationOf(request: Request, env: Env): (v: Verification)
    requires Complete(request)
    ensures |v.message| == |request.timestamp.value| + |request.body|
    ensures v.message[..|request.timestamp.value|] == request.timestamp.value
    ensures v.message[|request.timestamp.value|..] == request.body
    ensures v.publicKey == Hex.Decode(env.publicKey)
    ensures v.signature == Hex.Decode(request.signature.value)
    ensures |v.publicKey| == |env.publicKey| / 2 && Hex.IsByteSeq(v.publicKey)
    ensures |v.signature| == |request.signature.value| / 2 && Hex.IsByteSeq(v.signature)
  {
    Verification(
      Hex.Decode(env.publicKey),
      Hex.Decode(request.signature.value),
      request.timestamp.value + request.body)
  }

  /** A POST request that carries every field and whose signature verifies. */
  predicate Authentic(request: Request, env: Env, verify: Verifier) {
    && request.httpMethod == "POST"
    && Complete(request)
    && var v := VerificationOf(request, env); verify(v.publicKey, v.signature, v.message)
  }

  /** The handler. */
  function Fetch(request: Request, env: Env, verify: Verifier, parse: Parser): (o: Outcome)
    // the statuses there are, and which requests get each
    ensures o.response.status in {204, 401, 403, 405}
    ensures o.response.status == 405 <==> request.httpMethod != "POST"
    ensures o.response.status == 401 <==> request.httpMethod == "POST" && !Authentic(request, env, verify)
    ensures o.response.status == 403 <==> Authentic(request, env, verify) && parse(request.body).OtherType?
    ensures o.response.status == 204 <==> Authentic(request, env, verify) && !parse(request.body).OtherType?
    // response bodies: a null body exactly on success, one text for both 401 causes
    ensures o.response.body.None? <==> o.response.status == 204
    ensures o.response.status == 405 ==> o.response.body == Some(MethodNotAllowed)
    ensures o.response.status == 401 ==> o.response.body == Some(InvalidRequest)
    ensures o.response.status == 403 ==> o.response.body == Some(UnexpectedType)
    // the signature check is made exactly when the first two gates pass, on the decoded inputs
    ensures o.verification.Some? <==> request.httpMethod == "POST" && Complete(request)
    ensures o.verification.Some? ==> o.verification.value == VerificationOf(request, env)
    // logging
    ensures |o.logs| <= 1
    ensures o.response.status in {401, 405} ==> o.logs == []
    ensures forall r | r in o.logs :: (r.level == Error <==> o.response.status == 403)
    ensures o.response.status == 403 ==>
      o.logs == [LogRecord(Error, UnexpectedType, WholeEnvelope(parse(request.body)))]
    ensures Authentic(request, env, verify) && parse(request.body) == Ping ==>
      o.response.status == 204 && o.logs == [LogRecord(Info, "Ping.", WholeEnvelope(Ping))]
    ensures Authentic(request, env, verify) && parse(request.body).Event? ==>
      o.response.status == 204 && o.logs == LogWebhookEvent(parse(request.body).event)
  {
    if request.httpMethod != "POST" then
      Outcome(Response(405, Some(MethodNotAllowed)), [], None)
    else if !(Truthy(request.signature) && Truthy(request.timestamp) && request.body != "") then
      Outcome(Response(401, Some(InvalidRequest)), [], None)
    else
      var message := request.timestamp.value + request.body;
      var signature := Hex.Decode(request.signature.value);
      var publicKey := Hex.Decode(env.publicKey);
      var call := Some(Verification(publicKey, signature, message));
      if !verify(publicKey, signature, message) then
        Outcome(Response(401, Some(InvalidRequest)), [], call)
      else
        var json := parse(request.body);
        match json
        case Ping =>
          Outcome(Response(204, None), [LogRecord(Info, "Ping.", WholeEnvelope(json))], call)
        case OtherType(_) =>
          Outcome(Response(403, Some(UnexpectedType)), [LogRecord(Error, UnexpectedType, WholeEnvelope(json))], call)
        case Event(_) =>
          Outcome(Response(204, None), LogWebhookEvent(json.event), call)
  }

  /** A request whose method is not POST is answered the same way whatever
      its headers and body, whatever the key, the verifier and the decoder. */
  lemma NonPostIgnoresTheRest(r1: Request, r2: Request, e1: Env, e2: Env,
                               v1: Verifier, v2: Verifier, p1: Parser, p2: Parser)
    requires r1.httpMethod != "POST" && r1.httpMethod == r2.httpMethod
    ensures Fetch(r1, e1, v1, p1) == Fetch(r2, e2, v2, p2)
    ensures Fetch(r1, e1, v1, p1).response == Response(405, Some(MethodNotAllowed))
  {
  }

  /** A missing field and a failed signature check cannot be told apart from
      the response or the logs. */
  lemma UniformRejection(r1: Request, r2: Request, env: Env, verify: Verifier, p1: Parser, p2: Parser)
    requires r1.httpMethod == "POST" && !Complete(r1)
    requires r2.httpMethod == "POST" && Complete(r2) && !Authentic(r2, env, verify)
    ensures Fetch(r1, env, verify, p1).response == Fetch(r2, env, verify, p2).response
    ensures Fetch(r1, env, verify, p1).logs == Fetch(r2, env, verify, p2).logs == []
  {
  }

  /** Nothing after the gates is reached by a rejected request: its outcome
      does not depend on the decoder. */
  lemma RejectedIgnoresBody(request: Request, env: Env, verify: Verifier, p1: Parser, p2: Parser)
    requires !Authentic(request, env, verify)
    ensures Fetch(request, env, verify, p1) == Fetch(request, env, verify, p2)
  {
  }

  /** The signature check depends on the request only through its signature,
      timestamp and body, and sees the timestamp and body only through their
      concatenation: moving characters across the boundary between the two
      changes nothing the check is given. */
  lemma SignedMessageIsConcatenation(r1: Request, r2: Request, env: Env)
    requires Complete(r1) && Complete(r2)
    requires r1.signature == r2.signature
    requires r1.timestamp.value + r1.body == r2.timestamp.value + r2.body
    ensures VerificationOf(r1, env) == VerificationOf(r2, env)
  {
  }
}
