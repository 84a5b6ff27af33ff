/**
 * `resHandler`, the adapter from the HTTP client's `(err, res)` callback to
 * the scripts' `(err, result)` callbacks. The evaluation script and the a1a
 * script carry the same code; the evaluation one additionally logs a non-ok
 * response.
 */
module Http {
  import opened Js

  /** What the scripts read from an HTTP response: `res.ok` and the parsed `res.body`. */
  datatype Response = Response(ok: bool, body: JsValue)

  /**
   * A transport error is passed on alone; otherwise the callback receives
   * `[null, body]` on an ok response and the reversed `[body, null]` on any
   * other, so the body of a failed request arrives as the error.
   */
  function ResHandler(err: JsValue, res: Response): (c: Call)
    ensures Truthy(err) ==> c == Call(err, Undefined)
    ensures !Truthy(err) && res.ok ==> c == Call(Null, res.body)
    ensures !Truthy(err) && !res.ok ==> c == Call(res.body, Null)
  {
    if Truthy(err) then Call(err, Undefined)
    else
      var retVal := [Null, res.body];
      var args := if res.ok then retVal else [retVal[1], retVal[0]];
      Call(args[0], args[1])
  }

  /**
   * Without a transport error the body is delivered exactly once, and a
   * truthy body of a failed response always reaches the callback as an error.
   */
  lemma ResHandlerDeliversBody(err: JsValue, res: Response)
    requires !Truthy(err)
    ensures var c := ResHandler(err, res);
      && ((c.err == Null && c.res == res.body) || (c.err == res.body && c.res == Null))
      && (Truthy(c.err) <==> !res.ok && Truthy(res.body))
  {
  }
}
