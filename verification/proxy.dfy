/** Request middleware (platform/proxy/chain.ts, platform/proxy/auth.ts, platform/proxy.ts):
    a chain that stops at the first middleware producing a response, and the rule that
    sends visitors without a session from account pages to the login page. */
module Proxy {
  import opened Base

  datatype Request = Request(pathname: string)

  datatype Response =
    | Redirect(path: string, query: seq<(string, string)>)
    | Status(code: nat)

  /** One call of a middleware by the chain: its position and the arguments it got. */
  datatype Invocation<Req, Ctx> = Invocation(index: nat, req: Req, ctx: Ctx)

  /** `chainMiddlewares(...middlewares)(req, context)`: calls the middlewares in argument
      order with the same request and context and returns the first non-null response;
      the ones after it are never called. `calls` records the calls made. */
  method Chain<Req, Ctx, Resp>(middlewares: seq<(Req, Ctx) -> Option<Resp>>, req: Req, ctx: Ctx)
    returns (response: Option<Resp>, calls: seq<Invocation<Req, Ctx>>)
    ensures |calls| <= |middlewares|
    ensures forall k | 0 <= k < |calls| :: calls[k] == Invocation(k, req, ctx)
    ensures response.None? <==> forall k | 0 <= k < |middlewares| :: middlewares[k](req, ctx).None?
    ensures response.None? ==> |calls| == |middlewares|
    ensures response.Some? ==>
      && |calls| >= 1
      && response == middlewares[|calls| - 1](req, ctx)
      && forall k | 0 <= k < |calls| - 1 :: middlewares[k](req, ctx).None?
  {
    calls := [];
    var i := 0;
    while i < |middlewares|
      invariant 0 <= i <= |middlewares|
      invariant |calls| == i
      invariant forall k | 0 <= k < i :: calls[k] == Invocation(k, req, ctx)
      invariant forall k | 0 <= k < i :: middlewares[k](req, ctx).None?
    {
      var r := middlewares[i](req, ctx);
      calls := calls + [Invocation(i, req, ctx)];
      if r.Some? {
        return r, calls;
      }
      i := i + 1;
    }
    return None, calls;
  }

  /** `needle` occurs in `haystack` starting at position `i`. */
  predicate OccursAt(haystack: string, needle: string, i: int) {
    0 <= i && i + |needle| <= |haystack| && haystack[i..i + |needle|] == needle
  }

  /** `haystack.includes(needle)`. */
  function Includes(haystack: string, needle: string): (found: bool)
    ensures found <==> exists i :: OccursAt(haystack, needle, i)
    decreases |haystack|
  {
    if |haystack| < |needle| then false
    else if haystack[..|needle|] == needle then
      assert OccursAt(haystack, needle, 0);
      true
    else
      var rest := Includes(haystack[1..], needle);
      ShiftOccurrence(haystack, needle);
      rest
  }

  /** Past the first position, the occurrences in `haystack` are those in its tail, shifted by one. */
  lemma ShiftOccurrence(haystack: string, needle: string)
    requires |haystack| >= 1 && !OccursAt(haystack, needle, 0)
    ensures (exists i :: OccursAt(haystack, needle, i)) <==> (exists i :: OccursAt(haystack[1..], needle, i))
  {
    forall i | OccursAt(haystack, needle, i)
      ensures OccursAt(haystack[1..], needle, i - 1)
    {
      assert haystack[1..][i - 1..i - 1 + |needle|] == haystack[i..i + |needle|];
    }
    forall i | OccursAt(haystack[1..], needle, i)
      ensures OccursAt(haystack, needle, i + 1)
    {
      assert haystack[1..][i..i + |needle|] == haystack[i + 1..i + 1 + |needle|];
    }
  }

  const ProtectedPaths: seq<string> := ["/account"]

  /** A path is protected when it contains one of the protected prefixes anywhere. */
  predicate IsProtected(pathname: string) {
    exists p | p in ProtectedPaths :: Includes(pathname, p)
  }

  /** The middleware of `createAuthMiddleware`; `hasSession` is what `auth()` found. */
  function AuthMiddleware(hasSession: bool, req: Request): (resp: Option<Response>)
    ensures resp.Some? <==> (exists i :: OccursAt(req.pathname, "/account", i)) && !hasSession
    ensures resp.Some? ==> resp.value == Redirect("/login", [("callbackUrl", req.pathname)])
  {
    assert forall p | p in ProtectedPaths :: p == "/account";
    assert "/account" in ProtectedPaths;
    if IsProtected(req.pathname) && !hasSession then
      Some(Redirect("/login", [("callbackUrl", req.pathname)]))
    else None
  }

  /** The match is a plain substring test: "/en/accounting" is protected, "/en/login" is not. */
  lemma SubstringProtection()
    ensures AuthMiddleware(false, Request("/en/accounting")).Some?
    ensures AuthMiddleware(false, Request("/en/login")).None?
    ensures AuthMiddleware(true, Request("/en/account")).None?
  {
    assert OccursAt("/en/accounting", "/account", 3);
    assert "/account" in ProtectedPaths;
    assert Includes("/en/login"[2..], "/account") == false;
    assert "/en/login"[1..][..8][0] != "/account"[0];
    assert Includes("/en/login"[1..], "/account") == false;
    assert Includes("/en/login", "/account") == false;
  }

  /** `proxy`: the auth middleware, then the i18n middleware (an outside library, here the
      parameter `i18n`); with no response from either, an empty 200 response. */
  method Proxy(hasSession: bool, i18n: Request -> Option<Response>, req: Request)
    returns (resp: Response, calls: seq<Invocation<Request, ()>>)
    ensures (exists i :: OccursAt(req.pathname, "/account", i)) && !hasSession ==>
      resp == Redirect("/login", [("callbackUrl", req.pathname)]) && |calls| == 1
    ensures !((exists i :: OccursAt(req.pathname, "/account", i)) && !hasSession) ==>
      && |calls| == 2
      && resp == (if i18n(req).Some? then i18n(req).value else Status(200))
  {
    var auth := (r: Request, c: ()) => AuthMiddleware(hasSession, r);
    var intl := (r: Request, c: ()) => i18n(r);
    var response;
    var middlewares := [auth, intl];
    response, calls := Chain(middlewares, req, ());
    assert middlewares[0](req, ()) == AuthMiddleware(hasSession, req);
    assert middlewares[1](req, ()) == i18n(req);
    resp := if response.Some? then response.value else Status(200);
  }
}
