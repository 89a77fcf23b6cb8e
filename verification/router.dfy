/** The HTTP router of the persistence server: routes are keyed by
    "METHOD pathname"; a request is dispatched to its exact route, then to
    the "*" route of its pathname, and otherwise answered 405 when any
    method is registered for the pathname. */
module Router {
  import opened Wrappers

  /** Handlers are opaque; a registered handler is always truthy. */
  type Handler = nat
  type Routes = map<string, Handler>

  /** `String.prototype.toUpperCase` on ASCII letters. */
  function UpperChar(c: char): (u: char)
    ensures 'a' <= c <= 'z' ==> 'A' <= u <= 'Z' && u as int + 32 == c as int
    ensures !('a' <= c <= 'z') ==> u == c
  {
    if 'a' <= c <= 'z' then (c as int - 32) as char else c
  }

  function Upper(s: string): (u: string)
    ensures |u| == |s|
    ensures forall i :: 0 <= i < |s| ==> u[i] == UpperChar(s[i])
    ensures forall i :: 0 <= i < |u| ==> !('a' <= u[i] <= 'z')
  {
    if |s| == 0 then [] else [UpperChar(s[0])] + Upper(s[1..])
  }

  /** Upper-casing twice changes nothing more. */
  lemma UpperIdempotent(s: string)
    ensures Upper(Upper(s)) == Upper(s)
  {
  }

  /** The route key for a verb and a pathname. */
  function Key(verb: string, pathname: string): (k: string)
    ensures |k| == |verb| + 1 + |pathname|
    ensures k[|verb|] == ' ' && k[|verb| + 1..] == pathname
  {
    Upper(verb) + " " + pathname
  }

  /** `register`: the later registration of a key replaces the earlier. */
  function Register(routes: Routes, verb: string, pathname: string, h: Handler): (r: Routes)
    ensures r.Keys == routes.Keys + {Key(verb, pathname)}
    ensures r[Key(verb, pathname)] == h
    ensures forall k :: k in routes && k != Key(verb, pathname) ==> r[k] == routes[k]
  {
    routes[Key(verb, pathname) := h]
  }

  datatype Outcome = Dispatched(handler: Handler) | MethodNotAllowed | NotHandled

  /** The boolean `handle` resolves to. */
  predicate Handled(o: Outcome) {
    !o.NotHandled?
  }

  predicate EndsWith(s: string, suffix: string) {
    |suffix| <= |s| && s[|s| - |suffix|..] == suffix
  }

  /** A missing method is GET; the method is compared upper-cased. */
  function RequestMethod(verb: Option<string>): string {
    Upper(verb.GetOr("GET"))
  }

  /** A missing URL is "/"; `pathOf` stands for the WHATWG URL parser's
      pathname. */
  function RequestPath(url: Option<string>, pathOf: string -> string): string {
    pathOf(url.GetOr("/"))
  }

  /** `handle`. */
  function Handle(routes: Routes, verb: Option<string>, url: Option<string>,
                  pathOf: string -> string): (o: Outcome)
    ensures o.Dispatched? ==> o.handler in routes.Values
    ensures o.Dispatched? <==>
      RequestMethod(verb) + " " + RequestPath(url, pathOf) in routes ||
      "* " + RequestPath(url, pathOf) in routes
    ensures o.NotHandled? <==>
      forall k :: k in routes ==> !EndsWith(k, " " + RequestPath(url, pathOf))
  {
    var m := RequestMethod(verb);
    var p := RequestPath(url, pathOf);
    if m + " " + p in routes then
      assert EndsWith(m + " " + p, " " + p);
      Dispatched(routes[m + " " + p])
    else if "* " + p in routes then
      assert EndsWith("* " + p, " " + p);
      Dispatched(routes["* " + p])
    else if exists k :: k in routes && EndsWith(k, " " + p) then
      MethodNotAllowed
    else
      NotHandled
  }

  /** A registered route answers its own method and pathname, whatever the
      letter case of the request's method. */
  lemma RegisterThenHandle(routes: Routes, m: string, p: string, h: Handler,
                           verb: Option<string>, url: Option<string>,
                           pathOf: string -> string)
    requires Upper(verb.GetOr("GET")) == Upper(m)
    requires RequestPath(url, pathOf) == p
    ensures Handle(Register(routes, m, p, h), verb, url, pathOf) == Dispatched(h)
  {
  }

  /** The exact route wins over the "*" route of the same pathname. */
  lemma ExactBeatsWildcard(routes: Routes, verb: Option<string>, url: Option<string>,
                           pathOf: string -> string)
    requires RequestMethod(verb) + " " + RequestPath(url, pathOf) in routes
    ensures Handle(routes, verb, url, pathOf)
         == Dispatched(routes[RequestMethod(verb) + " " + RequestPath(url, pathOf)])
  {
  }

  /** Without an exact route, a "*" route for the pathname takes every
      method. */
  lemma WildcardFallback(routes: Routes, p: string, h: Handler,
                         verb: Option<string>, url: Option<string>,
                         pathOf: string -> string)
    requires RequestPath(url, pathOf) == p
    requires RequestMethod(verb) + " " + p !in routes
    ensures Handle(Register(routes, "*", p, h), verb, url, pathOf) == Dispatched(h)
  {
    assert Upper("*") == "*";
    assert Key("*", p) == "* " + p;
  }

  /** A request without a method is a GET, and the verb's letter case
      does not matter. */
  lemma MethodDefaults(routes: Routes, url: Option<string>, pathOf: string -> string)
    ensures Handle(routes, None, url, pathOf) == Handle(routes, Some("GET"), url, pathOf)
    ensures Handle(routes, Some("get"), url, pathOf) == Handle(routes, Some("GET"), url, pathOf)
  {
    assert Upper("get") == "GET";
    assert Upper("GET") == "GET";
  }

  /** One `register` call. */
  datatype Registration = Registration(verb: string, pathname: string, handler: Handler)

  /** The route table after registering `regs` in order. */
  function Build(regs: seq<Registration>): Routes {
    if |regs| == 0 then map[]
    else
      var last := regs[|regs| - 1];
      Register(Build(regs[..|regs| - 1]), last.verb, last.pathname, last.handler)
  }

  /** Every registration's key is in the table. */
  lemma {:induction false} BuildHasKey(regs: seq<Registration>, i: int)
    requires 0 <= i < |regs|
    ensures Key(regs[i].verb, regs[i].pathname) in Build(regs)
  {
    var n := |regs|;
    var init := regs[..n - 1];
    assert Build(regs).Keys == Build(init).Keys + {Key(regs[n - 1].verb, regs[n - 1].pathname)};
    if i < n - 1 {
      BuildHasKey(init, i);
      assert init[i] == regs[i];
    }
  }

  /** Every key in the table is some registration's. */
  lemma {:induction false} BuildOnlyKeys(regs: seq<Registration>, k: string)
    requires k in Build(regs)
    ensures exists i :: 0 <= i < |regs| && Key(regs[i].verb, regs[i].pathname) == k
  {
    var n := |regs|;
    var init := regs[..n - 1];
    assert Build(regs).Keys == Build(init).Keys + {Key(regs[n - 1].verb, regs[n - 1].pathname)};
    if k != Key(regs[n - 1].verb, regs[n - 1].pathname) {
      BuildOnlyKeys(init, k);
      var i :| 0 <= i < |init| && Key(init[i].verb, init[i].pathname) == k;
      assert regs[i] == init[i];
    }
  }

  lemma BuildKeys(regs: seq<Registration>, k: string)
    ensures k in Build(regs) <==>
      exists i :: 0 <= i < |regs| && Key(regs[i].verb, regs[i].pathname) == k
  {
    if k in Build(regs) {
      BuildOnlyKeys(regs, k);
    }
    if exists i :: 0 <= i < |regs| && Key(regs[i].verb, regs[i].pathname) == k {
      var i :| 0 <= i < |regs| && Key(regs[i].verb, regs[i].pathname) == k;
      BuildHasKey(regs, i);
    }
  }

  predicate SpaceFree(s: string) {
    forall i :: 0 <= i < |s| ==> s[i] != ' '
  }

  /** The key of a space-free method and pathname ends with " p" exactly
      when its pathname is p. */
  lemma KeySuffix(m: string, path: string, p: string)
    requires SpaceFree(m) && SpaceFree(path)
    ensures EndsWith(Key(m, path), " " + p) <==> path == p
  {
    var k := Key(m, path);
    var s := " " + p;
    assert SpaceFree(Upper(m));
    if EndsWith(k, s) {
      var start := |k| - |s|;
      assert k[start] == ' ' by { assert k[start..][0] == s[0]; }
      assert start == |m|;
      assert k[|m| + 1..] == p by { assert k[start..][1..] == s[1..]; }
    }
  }

  /** For a table whose registrations have space-free methods and
      pathnames, `handle` answers a request (dispatch or 405) exactly when
      some registration used the request's pathname. */
  lemma HandledIffPathRegistered(regs: seq<Registration>, verb: Option<string>,
                                 url: Option<string>, pathOf: string -> string)
    requires forall i :: 0 <= i < |regs| ==> SpaceFree(regs[i].verb) && SpaceFree(regs[i].pathname)
    ensures Handled(Handle(Build(regs), verb, url, pathOf)) <==>
      exists i :: 0 <= i < |regs| && regs[i].pathname == RequestPath(url, pathOf)
  {
    var p := RequestPath(url, pathOf);
    var routes := Build(regs);
    if exists i :: 0 <= i < |regs| && regs[i].pathname == p {
      var i :| 0 <= i < |regs| && regs[i].pathname == p;
      var k := Key(regs[i].verb, regs[i].pathname);
      BuildKeys(regs, k);
      KeySuffix(regs[i].verb, regs[i].pathname, p);
      assert k in routes && EndsWith(k, " " + p);
    } else {
      forall k | k in routes
        ensures !EndsWith(k, " " + p)
      {
        BuildKeys(regs, k);
        var i :| 0 <= i < |regs| && Key(regs[i].verb, regs[i].pathname) == k;
        KeySuffix(regs[i].verb, regs[i].pathname, p);
      }
    }
  }
}
