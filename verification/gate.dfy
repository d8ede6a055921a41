/**
 * The access gate: a plain equality between what the caller sends and the
 * configured secret, which is `None` when the PASSWORD variable is unset.
 * Both revisions use the same two checks.
 */
module AccessGate {
  import opened Wrappers
  import opened Http

  /** Python's `value == PASSWORD` for a JSON body value: `null` equals an unset secret. */
  predicate SameAsSecret(v: JsonValue, secret: Option<string>)
  {
    match v
    case JNull => secret == None
    case JString(s) => secret == Some(s)
  }

  /**
   * `verify_password(data)`: the body has a `password` key whose value equals
   * the secret. With the secret unset, a body carrying `"password": null`
   * passes.
   */
  function VerifyPassword(body: Body, secret: Option<string>): (ok: bool)
    ensures ok ==> "password" in body
    ensures secret.Some? ==> (ok <==> "password" in body && body["password"] == JString(secret.value))
    ensures secret.None? ==> (ok <==> "password" in body && body["password"] == JNull)
  {
    "password" in body && SameAsSecret(body["password"], secret)
  }

  /**
   * `request.args.get('password') == PASSWORD`, the gate of the statistics and
   * export handlers. With the secret unset, a query WITHOUT a password passes,
   * and no query with one does.
   */
  function QueryAuthorized(args: Args, secret: Option<string>): (ok: bool)
    ensures secret.None? ==> (ok <==> "password" !in args)
    ensures secret.Some? ==> (ok <==> "password" in args && args["password"] == secret.value)
  {
    ArgGet(args, "password") == secret
  }
}
